/**
 The HTTP controller: `POST /chat` (validate, ask the service once, answer `{ text }`)
 and `GET /chat/stream` (validate, set the SSE headers, then relay the service's
 fragments as frames: `ready`, one `delta` per fragment, exactly one of `done` or
 `error`, then end the response).

 The streaming handler is modelled by its trace: each header set on the response, each
 pull of the generator, each frame written and the call to `end`. Writes are assumed not
 to fail.
 */
module ChatController {
  import opened Nullish
  import opened Seqs
  import Strings
  import opened ChatService
  import opened Sse

  const PostMissingMessage: string := "message is required"
  const StreamMissingMessage: string := "message query param is required"
  const UnknownErrorMessage: string := "Unknown error"

  /* ---------------------------------------------------------------- POST /chat */

  /** The request body, `{ message?: string }`; the whole body may be absent too. */
  datatype PostBody = PostBody(message: Option<string>)

  /** 400 with a reason, 201 (Nest's default for a POST) with `{ text }`, or the 500 a propagated service failure becomes. */
  datatype PostReply = BadRequest(reason: string) | Answer(text: string) | InternalError

  /** `body?.message?.trim()`: absent when the body or its message is. */
  function PostMessage(body: Option<PostBody>): Option<string>
  {
    match body
    case None => None
    case Some(b) =>
      match b.message
      case None => None
      case Some(m) => Some(Strings.Trim(m))
  }

  /**
   `POST /chat`. A missing, empty or whitespace-only message is a bad request, decided
   before the service is consulted (the reply then depends on neither the service nor
   the provider). Otherwise the service answers the trimmed message, and its text is
   returned as is; a service failure propagates as an internal error.
   */
  function PostChat(body: Option<PostBody>, svc: Service, provider: Request -> Reply): (r: PostReply)
    ensures r.BadRequest? <==>
      body.None? || body.value.message.None? || Strings.AllWhitespace(body.value.message.value)
    ensures r.BadRequest? ==> r.reason == PostMissingMessage
    ensures !r.BadRequest? ==>
      var answer := ChatOnce(svc, Strings.Trim(body.value.message.value), provider);
      && (r.Answer? <==> answer.Completed?)
      && (r.Answer? ==> r.text == answer.text)
  {
    match PostMessage(body)
    case None => BadRequest(PostMissingMessage)
    case Some(message) =>
      if message == "" then BadRequest(PostMissingMessage)
      else
        match ChatOnce(svc, message, provider)
        case Completed(text) => Answer(text)
        case Raised(_) => InternalError
  }

  /** In mock mode, posting `"hello"` answers the fixed sentence. */
  lemma PostHelloInMockMode(svc: Service, provider: Request -> Reply)
    requires svc.mode.Mock?
    ensures PostChat(Some(PostBody(Some("hello"))), svc, provider) == Answer(MockSentence)
  {
    assert "" + "hello" + "" == "hello";
    Strings.TrimUnique("", "hello", "");
  }

  /* ---------------------------------------------------------------- GET /chat/stream */

  /** One step of the streaming handler: a header set, the `index`-th pull of the generator, a frame written, or `end`. */
  datatype Action = SetHeader(name: string, value: string) | Pulled(index: nat) | Write(frame: Frame) | End

  /** 400 before anything touches the response, or the handler's trace. */
  datatype StreamReply = Rejected(reason: string) | Streamed(log: seq<Action>)

  const SseHeaders: seq<Action> := [
    SetHeader("Content-Type", "text/event-stream; charset=utf-8"),
    SetHeader("Cache-Control", "no-cache, no-transform"),
    SetHeader("Connection", "keep-alive")
  ]

  /** The frame the handler ends with: `done`, or `error` carrying `err?.message ?? 'Unknown error'`. */
  function TerminalFrame(ending: Ending): Frame
  {
    match ending
    case Finished => Done
    case Failed(m) => Error(Coalesce(m, UnknownErrorMessage))
  }

  /**
   The pulls that yield fragments, each followed at once by the `delta` write carrying
   that fragment unchanged: pull 0, delta 0, pull 1, delta 1, and so on.
   */
  function DeltaSteps(fragments: seq<string>): (w: seq<Action>)
    ensures |w| == 2 * |fragments|
    ensures forall k :: 0 <= k < |fragments| ==>
      w[2 * k] == Pulled(k) && w[2 * k + 1] == Write(Delta(fragments[k]))
    ensures forall j :: 0 <= j < |w| ==> w[j].Pulled? || (w[j].Write? && w[j].frame.Delta?)
    decreases |fragments|
  {
    if |fragments| == 0 then []
    else
      var n := |fragments| - 1;
      DeltaSteps(fragments[..n]) + [Pulled(n), Write(Delta(fragments[n]))]
  }

  /** The delta steps of one more fragment: one more pull and its write. */
  lemma DeltaStepsGrow(fragments: seq<string>, i: nat)
    requires i < |fragments|
    ensures DeltaSteps(fragments[..i + 1]) == DeltaSteps(fragments[..i]) + [Pulled(i), Write(Delta(fragments[i]))]
  {
    assert fragments[..i + 1][..i] == fragments[..i];
  }

  /**
   The trace the streaming handler produces for a generator run `o`: the three SSE
   headers, `ready`, each yielding pull with its `delta`, the last pull, the terminal
   frame, and `end`.
   */
  function RelayLog(o: Outcome): seq<Action>
  {
    SseHeaders + [Write(Ready)] + DeltaSteps(o.fragments)
      + [Pulled(|o.fragments|), Write(TerminalFrame(o.ending)), End]
  }

  /**
   The relay as the handler runs it: headers, `ready` before the first pull, then pull
   after pull writing one `delta` per fragment; when the generator returns, `done` and
   `end`; when it throws, `error` and `end`.
   */
  method Relay(o: Outcome) returns (log: seq<Action>)
    ensures log == RelayLog(o)
  {
    log := SseHeaders;
    log := log + [Write(Ready)];
    var i := 0;
    log := log + [Pulled(i)];
    var step := Pull(o, i);
    while step.Yielded?
      invariant i <= |o.fragments|
      invariant step == Pull(o, i)
      invariant log == SseHeaders + [Write(Ready)] + DeltaSteps(o.fragments[..i]) + [Pulled(i)]
      decreases |o.fragments| - i
    {
      log := log + [Write(Delta(step.fragment))];
      DeltaStepsGrow(o.fragments, i);
      i := i + 1;
      log := log + [Pulled(i)];
      step := Pull(o, i);
    }
    assert o.fragments[..i] == o.fragments;
    match step {
      case Returned =>
        log := log + [Write(Done), End];
      case Threw(m) =>
        log := log + [Write(Error(Coalesce(m, UnknownErrorMessage))), End];
    }
  }

  /**
   `GET /chat/stream?message=…`. A missing or blank message is rejected before any
   header is set or frame written. Otherwise the service streams the trimmed message and
   the response is exactly the relay of that stream.
   */
  method StreamChat(query: Option<string>, svc: Service, provider: Request -> Upstream) returns (r: StreamReply)
    ensures r.Rejected? <==> Strings.AllWhitespace(Coalesce(query, ""))
    ensures r.Rejected? ==> r.reason == StreamMissingMessage
    ensures r.Streamed? ==> r.log == RelayLog(ChatStream(svc, Strings.Trim(Coalesce(query, "")), provider))
  {
    var msg := Strings.Trim(Coalesce(query, ""));
    if msg == "" {
      return Rejected(StreamMissingMessage);
    }
    var log := Relay(ChatStream(svc, msg, provider));
    r := Streamed(log);
  }

  /* ---------------------------------------------------------------- the relay's protocol */

  function WrittenFrame(a: Action): Option<Frame>
  {
    if a.Write? then Some(a.frame) else None
  }

  predicate IsEnd(a: Action)
  {
    a.End?
  }

  function DeltaPayload(f: Frame): Option<string>
  {
    if f.Delta? then Some(f.text) else None
  }

  /** The frames a client receives, in order. */
  function Frames(log: seq<Action>): seq<Frame>
  {
    Collect(log, WrittenFrame)
  }

  /** A pull followed by a write: the written frame, and no `end`. */
  lemma PullThenWrite(k: nat, f: Frame)
    ensures Frames([Pulled(k), Write(f)]) == [f]
    ensures Count([Pulled(k), Write(f)], IsEnd) == 0
  {
    assert [Pulled(k), Write(f)] == [Pulled(k)] + [Write(f)];
    CollectAppend([Pulled(k)], [Write(f)], WrittenFrame);
    CollectSingle(Pulled(k), WrittenFrame);
    CollectSingle(Write(f), WrittenFrame);
    CountAppend([Pulled(k)], [Write(f)], IsEnd);
    CountSingle(Pulled(k), IsEnd);
    CountSingle(Write(f), IsEnd);
  }

  /** The frames of the delta steps are the delta frames of the fragments, in order, and there is no `end` among them. */
  lemma {:induction false} FramesOfDeltaSteps(fragments: seq<string>)
    ensures |Frames(DeltaSteps(fragments))| == |fragments|
    ensures forall k :: 0 <= k < |fragments| ==> Frames(DeltaSteps(fragments))[k] == Delta(fragments[k])
    ensures Count(DeltaSteps(fragments), IsEnd) == 0
    decreases |fragments|
  {
    if |fragments| > 0 {
      var n := |fragments| - 1;
      var pair := [Pulled(n), Write(Delta(fragments[n]))];
      assert DeltaSteps(fragments) == DeltaSteps(fragments[..n]) + pair;
      FramesOfDeltaSteps(fragments[..n]);
      CollectAppend(DeltaSteps(fragments[..n]), pair, WrittenFrame);
      CountAppend(DeltaSteps(fragments[..n]), pair, IsEnd);
      PullThenWrite(n, Delta(fragments[n]));
    }
  }

  /** Frames made only of deltas hold no terminal frame and carry exactly their texts. */
  lemma {:induction false} DeltaOnlyFrames(frames: seq<Frame>, fragments: seq<string>)
    requires |frames| == |fragments|
    requires forall k :: 0 <= k < |frames| ==> frames[k] == Delta(fragments[k])
    ensures Count(frames, IsTerminal) == 0
    ensures Collect(frames, DeltaPayload) == fragments
    decreases |frames|
  {
    if |frames| > 0 {
      var n := |frames| - 1;
      DeltaOnlyFrames(frames[..n], fragments[..n]);
      assert fragments == fragments[..n] + [fragments[n]];
    }
  }

  /** Neither a frame nor an `end` among the headers. */
  lemma HeadersOnly()
    ensures Frames(SseHeaders) == []
    ensures Count(SseHeaders, IsEnd) == 0
  {
    var h := SseHeaders;
    assert h == [h[0]] + [h[1]] + [h[2]];
    CollectAppend([h[0]] + [h[1]], [h[2]], WrittenFrame);
    CollectAppend([h[0]], [h[1]], WrittenFrame);
    CollectSingle(h[0], WrittenFrame);
    CollectSingle(h[1], WrittenFrame);
    CollectSingle(h[2], WrittenFrame);
    CountAppend([h[0]] + [h[1]], [h[2]], IsEnd);
    CountAppend([h[0]], [h[1]], IsEnd);
    CountSingle(h[0], IsEnd);
    CountSingle(h[1], IsEnd);
    CountSingle(h[2], IsEnd);
  }

  /** The frames and `end` calls of a log in four parts are those of the parts. */
  lemma FourParts(a: seq<Action>, b: seq<Action>, c: seq<Action>, d: seq<Action>)
    ensures Frames(a + b + c + d) == Frames(a) + Frames(b) + Frames(c) + Frames(d)
    ensures Count(a + b + c + d, IsEnd) == Count(a, IsEnd) + Count(b, IsEnd) + Count(c, IsEnd) + Count(d, IsEnd)
  {
    CollectAppend(a + b + c, d, WrittenFrame);
    CollectAppend(a + b, c, WrittenFrame);
    CollectAppend(a, b, WrittenFrame);
    CountAppend(a + b + c, d, IsEnd);
    CountAppend(a + b, c, IsEnd);
    CountAppend(a, b, IsEnd);
  }

  /** The closing steps, the last pull, one terminal frame and one `end`: that frame and that `end`. */
  lemma Closing(n: nat, t: Frame)
    ensures Frames([Pulled(n), Write(t), End]) == [t]
    ensures Count([Pulled(n), Write(t), End], IsEnd) == 1
  {
    assert [Pulled(n), Write(t), End] == [Pulled(n), Write(t)] + [End];
    PullThenWrite(n, t);
    CollectAppend([Pulled(n), Write(t)], [End], WrittenFrame);
    CollectSingle(End, WrittenFrame);
    CountAppend([Pulled(n), Write(t)], [End], IsEnd);
    CountSingle(End, IsEnd);
  }

  /** The frames and `end` calls of the relay log, part by part. */
  lemma RelayLogParts(o: Outcome)
    ensures Frames(RelayLog(o)) == [Ready] + Frames(DeltaSteps(o.fragments)) + [TerminalFrame(o.ending)]
    ensures Count(RelayLog(o), IsEnd) == 1
  {
    var d := DeltaSteps(o.fragments);
    var t := TerminalFrame(o.ending);
    FourParts(SseHeaders, [Write(Ready)], d, [Pulled(|o.fragments|), Write(t), End]);
    HeadersOnly();
    CollectSingle(Write(Ready), WrittenFrame);
    CountSingle(Write(Ready), IsEnd);
    FramesOfDeltaSteps(o.fragments);
    Closing(|o.fragments|, t);
  }

  /** The frames of the relay log: `ready`, one `delta` per fragment, the terminal frame. */
  lemma RelayFrames(o: Outcome)
    ensures var frames := Frames(RelayLog(o));
      && |frames| == |o.fragments| + 2
      && frames[0] == Ready
      && (forall k :: 0 <= k < |o.fragments| ==> frames[1 + k] == Delta(o.fragments[k]))
      && frames[|frames| - 1] == TerminalFrame(o.ending)
  {
    RelayLogParts(o);
    FramesOfDeltaSteps(o.fragments);
  }

  /**
   The ordering contract, for every generator run — no fragment, one, many, a failure
   part-way or before the first fragment: `ready` is the first frame; the deltas carry
   exactly the fragments, in order, none dropped or repeated; exactly one terminal frame
   is written and it is the last; `done` is written exactly when the generator returned,
   `error` exactly when it threw; `end` is called exactly once, as the last action; and
   every header is set before the first frame.
   */
  lemma RelayProtocol(o: Outcome)
    ensures var log := RelayLog(o);
      var frames := Frames(log);
      && |frames| == |o.fragments| + 2
      && frames[0] == Ready
      && Collect(frames, DeltaPayload) == o.fragments
      && Count(frames, IsTerminal) == 1
      && IsTerminal(frames[|frames| - 1])
      && (frames[|frames| - 1] == Done <==> o.ending == Finished)
      && (frames[|frames| - 1].Error? <==> o.ending.Failed?)
      && Count(log, IsEnd) == 1
      && log[|log| - 1] == End
      && (forall k :: 0 <= k < |log| && log[k].SetHeader? ==> k < |SseHeaders|)
      && (forall k :: 0 <= k < |log| && log[k].Write? ==> k >= |SseHeaders|)
  {
    RelayLogParts(o);
    FramesOfDeltaSteps(o.fragments);
    BracketedDeltas(Frames(DeltaSteps(o.fragments)), o.fragments, TerminalFrame(o.ending));
    HeadersFirst(o);
  }

  /**
   The interleaving of pulls and writes: `ready` is written before the first pull; each
   fragment's `delta` is written right after the pull that yielded it and before the next
   pull; the last pull is followed by the terminal frame and `end`, and nothing else. No
   fragment is held back or batched.
   */
  lemma RelayInterleaving(o: Outcome)
    ensures var log := RelayLog(o);
      var h := |SseHeaders|;
      var n := |o.fragments|;
      && |log| == h + 2 * n + 4
      && log[h] == Write(Ready)
      && log[h + 1] == Pulled(0)
      && (forall k :: 0 <= k < n ==>
            && log[h + 1 + 2 * k] == Pulled(k)
            && log[h + 2 + 2 * k] == Write(Delta(o.fragments[k]))
            && log[h + 3 + 2 * k] == Pulled(k + 1))
      && log[h + 1 + 2 * n] == Pulled(n)
      && log[h + 2 + 2 * n] == Write(TerminalFrame(o.ending))
      && log[h + 3 + 2 * n] == End
  {
    var opening := SseHeaders + [Write(Ready)];
    InterleavedSteps(opening, o.fragments, TerminalFrame(o.ending));
    InterleavedEnds(opening, o.fragments, TerminalFrame(o.ending));
  }

  /** After any opening: the pull before each fragment's write and the pull after it. */
  lemma InterleavedSteps(opening: seq<Action>, fragments: seq<string>, t: Frame)
    ensures var log := opening + DeltaSteps(fragments) + [Pulled(|fragments|), Write(t), End];
      var p := |opening|;
      forall k :: 0 <= k < |fragments| ==>
        && log[p + 2 * k] == Pulled(k)
        && log[p + 2 * k + 1] == Write(Delta(fragments[k]))
        && log[p + 2 * k + 2] == Pulled(k + 1)
  {
    forall k | 0 <= k < |fragments| {
      StepsAt(opening, fragments, t, k);
    }
  }

  /** After an opening that ends with `ready`: the length, and the last pull, terminal frame and `end`. */
  lemma InterleavedEnds(opening: seq<Action>, fragments: seq<string>, t: Frame)
    requires |opening| > 0 && opening[|opening| - 1] == Write(Ready)
    ensures var log := opening + DeltaSteps(fragments) + [Pulled(|fragments|), Write(t), End];
      var p := |opening|;
      var n := |fragments|;
      && |log| == p + 2 * n + 3
      && log[p - 1] == Write(Ready)
      && log[p + 2 * n] == Pulled(n)
      && log[p + 2 * n + 1] == Write(t)
      && log[p + 2 * n + 2] == End
  {
    var close := [Pulled(|fragments|), Write(t), End];
    LastAt(opening, DeltaSteps(fragments), close, 0);
    LastAt(opening, DeltaSteps(fragments), close, 1);
    LastAt(opening, DeltaSteps(fragments), close, 2);
  }

  /** The pull that yields fragment `k`, its write, and the pull after it. */
  lemma StepsAt(opening: seq<Action>, fragments: seq<string>, t: Frame, k: nat)
    requires k < |fragments|
    ensures var log := opening + DeltaSteps(fragments) + [Pulled(|fragments|), Write(t), End];
      var p := |opening|;
      && log[p + 2 * k] == Pulled(k)
      && log[p + 2 * k + 1] == Write(Delta(fragments[k]))
      && log[p + 2 * k + 2] == Pulled(k + 1)
  {
    var d := DeltaSteps(fragments);
    var close := [Pulled(|fragments|), Write(t), End];
    MiddleAt(opening, d, close, 2 * k);
    MiddleAt(opening, d, close, 2 * k + 1);
    if k + 1 < |fragments| {
      MiddleAt(opening, d, close, 2 * (k + 1));
    } else {
      LastAt(opening, d, close, 0);
    }
  }

  /** `ready`, deltas carrying `fragments`, one terminal frame: the payloads and the terminal count. */
  lemma BracketedDeltas(deltas: seq<Frame>, fragments: seq<string>, t: Frame)
    requires |deltas| == |fragments|
    requires forall k :: 0 <= k < |deltas| ==> deltas[k] == Delta(fragments[k])
    requires IsTerminal(t)
    ensures Collect([Ready] + deltas + [t], DeltaPayload) == fragments
    ensures Count([Ready] + deltas + [t], IsTerminal) == 1
  {
    DeltaOnlyFrames(deltas, fragments);
    BracketedPayloads(deltas, fragments, t);
    BracketedTerminals(deltas, t);
  }

  lemma BracketedPayloads(deltas: seq<Frame>, fragments: seq<string>, t: Frame)
    requires Collect(deltas, DeltaPayload) == fragments
    requires IsTerminal(t)
    ensures Collect([Ready] + deltas + [t], DeltaPayload) == fragments
  {
    var head := [Ready] + deltas;
    CollectAppend(head, [t], DeltaPayload);
    CollectAppend([Ready], deltas, DeltaPayload);
    CollectSingle(Ready, DeltaPayload);
    CollectSingle(t, DeltaPayload);
  }

  lemma BracketedTerminals(deltas: seq<Frame>, t: Frame)
    requires Count(deltas, IsTerminal) == 0
    requires IsTerminal(t)
    ensures Count([Ready] + deltas + [t], IsTerminal) == 1
  {
    var head := [Ready] + deltas;
    CountAppend(head, [t], IsTerminal);
    CountAppend([Ready], deltas, IsTerminal);
    CountSingle(Ready, IsTerminal);
    CountSingle(t, IsTerminal);
  }

  /** In the relay log the headers come first, and after them no header is set. */
  lemma HeadersFirst(o: Outcome)
    ensures var log := RelayLog(o);
      && (forall k :: 0 <= k < |log| && log[k].SetHeader? ==> k < |SseHeaders|)
      && (forall k :: 0 <= k < |log| && log[k].Write? ==> k >= |SseHeaders|)
  {
    var log := RelayLog(o);
    var rest := [Write(Ready)] + DeltaSteps(o.fragments) + [Pulled(|o.fragments|), Write(TerminalFrame(o.ending)), End];
    assert log == SseHeaders + rest;
    assert forall k :: 0 <= k < |rest| ==> !rest[k].SetHeader?;
  }

  /* ---------------------------------------------------------------- end to end */

  /** Streaming in mock mode: `ready`, one delta per word with its trailing space, `done`. */
  lemma MockStreamFrames(svc: Service, message: string, provider: Request -> Upstream)
    requires svc.mode.Mock?
    ensures Frames(RelayLog(ChatStream(svc, message, provider)))
         == [Ready, Delta("Texto "), Delta("para "), Delta("hacer "), Delta("test "),
             Delta("del "), Delta("text "), Delta("streaming "), Done]
  {
    MockStreamFragments();
    SevenWordFrames(ChatStream(svc, message, provider));
  }

  /** The frames of a finished run that yielded the seven mock fragments. */
  lemma SevenWordFrames(o: Outcome)
    requires o.fragments == ["Texto ", "para ", "hacer ", "test ", "del ", "text ", "streaming "]
    requires o.ending == Finished
    ensures Frames(RelayLog(o))
         == [Ready, Delta("Texto "), Delta("para "), Delta("hacer "), Delta("test "),
             Delta("del "), Delta("text "), Delta("streaming "), Done]
  {
    FramesAre(o, [Ready, Delta("Texto "), Delta("para "), Delta("hacer "), Delta("test "),
                  Delta("del "), Delta("text "), Delta("streaming "), Done]);
  }

  /** Frames listed one by one: `ready`, a delta per fragment, the terminal frame. */
  lemma FramesAre(o: Outcome, expected: seq<Frame>)
    requires |expected| == |o.fragments| + 2
    requires expected[0] == Ready
    requires forall k :: 0 <= k < |o.fragments| ==> expected[1 + k] == Delta(o.fragments[k])
    requires expected[|expected| - 1] == TerminalFrame(o.ending)
    ensures Frames(RelayLog(o)) == expected
  {
    RelayFrames(o);
    var frames := Frames(RelayLog(o));
    forall k | 0 <= k < |frames| ensures frames[k] == expected[k] {
      if 0 < k < |frames| - 1 {
        assert frames[1 + (k - 1)] == Delta(o.fragments[k - 1]);
      }
    }
  }

  /**
   A live stream whose first error event comes after any number of delta events, possibly
   none: the client gets `ready`, one delta per delta event before the error, then one
   `error` frame with the upstream's message exactly (even an empty one), or "OpenAI
   stream error" when it has none. Nothing from the events after the error reaches the
   client.
   */
  lemma LiveFailureFrames(events: seq<Event>, i: int, end: UpstreamEnd)
    requires FirstErrorAt(events, i)
    ensures var before := ChatService.DeltaTexts(events[..i]);
      var frames := Frames(RelayLog(LiveStream(events, end)));
      && |frames| == |before| + 2
      && frames[0] == Ready
      && (forall k :: 0 <= k < |before| ==> frames[1 + k] == Delta(before[k]))
      && frames[|frames| - 1] == Error(ErrorEventMessage(events[i]))
      && (events[i].errorMessage.Some? ==> frames[|frames| - 1] == Error(events[i].errorMessage.value))
  {
    LiveStreamAbortsAtFirstError(events, i, end);
    RelayFrames(LiveStream(events, end));
  }

  /**
   A live stream cut by a transport failure, or refused before any event: the client gets
   the delta frames so far and one `error` frame with the failure's message, or
   "Unknown error" when it has none.
   */
  lemma LiveBrokenFrames(events: seq<Event>, m: Option<string>)
    requires ErrorFree(events)
    ensures var texts := ChatService.DeltaTexts(events);
      var frames := Frames(RelayLog(LiveStream(events, Broken(m))));
      && |frames| == |texts| + 2
      && frames[0] == Ready
      && (forall k :: 0 <= k < |texts| ==> frames[1 + k] == Delta(texts[k]))
      && frames[|frames| - 1] == Error(Coalesce(m, UnknownErrorMessage))
  {
    LiveStreamWithoutError(events, Broken(m));
    RelayFrames(LiveStream(events, Broken(m)));
  }
}
