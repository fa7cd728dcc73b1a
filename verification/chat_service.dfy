/**
 The chat service: configuration read once at construction, the one-shot completion
 (`chatOnce`) and the fragment producer (`chatStream`), each in a mock and a live mode.

 The provider is a parameter: for a request it gives either a reply (one-shot) or the
 finite list of events its stream delivers and how that stream ends. "Mock mode never
 calls the provider" therefore reads "the result does not depend on that parameter".
 The asynchronous generator becomes a pure function from the upstream events to the
 fragments it yields and the way it ends.
 */
module ChatService {
  import opened Nullish
  import opened Seqs
  import Strings

  /* ---------------------------------------------------------------- constants */

  const MockSentence: string := "Texto para hacer test del text streaming"
  const DefaultModel: string := "gpt-5"
  const MissingKeyMessage: string := "Falta OPENAI_API_KEY en .env"
  const DeltaEventType: string := "response.output_text.delta"
  const ErrorEventType: string := "error"
  const StreamErrorFallback: string := "OpenAI stream error"

  /** The words of the mock sentence, as `split(' ')` produces them. */
  const MockWords: seq<string> := ["Texto", "para", "hacer", "test", "del", "text", "streaming"]

  /* ---------------------------------------------------------------- configuration */

  /** The three configuration keys, each possibly unset. */
  datatype Config = Config(useMock: Option<string>, model: Option<string>, apiKey: Option<string>)

  /** Mock, or live with the client's credential. */
  datatype Mode = Mock | Live(apiKey: string)

  datatype Service = Service(mode: Mode, model: string)

  /** Construction either yields a service or throws, refusing to start. */
  datatype Construction = Constructed(service: Service) | Refused(reason: string)

  /** A live service always holds a non-empty credential. */
  predicate Valid(svc: Service)
  {
    svc.mode.Live? ==> svc.mode.apiKey != ""
  }

  /**
   The constructor. Mock mode is on exactly when `USE_MOCK` is the string `"true"`;
   the model defaults to `"gpt-5"` when unset (an empty one is kept); outside mock mode
   a missing or empty API key refuses construction. In mock mode the key is not looked at.
   */
  function NewService(cfg: Config): (r: Construction)
    ensures r.Refused? <==> cfg.useMock != Some("true") && (cfg.apiKey == None || cfg.apiKey == Some(""))
    ensures r.Refused? ==> r.reason == MissingKeyMessage
    ensures r.Constructed? ==> Valid(r.service)
    ensures r.Constructed? ==> (r.service.mode.Mock? <==> cfg.useMock == Some("true"))
    ensures r.Constructed? && r.service.mode.Live? ==> cfg.apiKey == Some(r.service.mode.apiKey)
    ensures r.Constructed? && cfg.model.Some? ==> r.service.model == cfg.model.value
    ensures r.Constructed? && cfg.model.None? ==> r.service.model == DefaultModel
  {
    var useMock := Coalesce(cfg.useMock, "false") == "true";
    var model := Coalesce(cfg.model, DefaultModel);
    if useMock then Constructed(Service(Mock, model))
    else if cfg.apiKey.None? || cfg.apiKey.value == "" then Refused(MissingKeyMessage)
    else Constructed(Service(Live(cfg.apiKey.value), model))
  }

  /* ---------------------------------------------------------------- provider */

  /** What is sent to the provider: the model, the user's message, and whether to stream. */
  datatype Request = Request(model: string, userMessage: string, stream: bool)

  /** A one-shot reply (whose `output_text` may be absent), or a failed call. */
  datatype Reply = Replied(outputText: Option<string>) | CallFailed(message: Option<string>)

  /**
   One upstream stream event: its `type`, its `delta` (absent on most types), and
   `error?.message` (absent when the event has no `error` or the error has no message).
   */
  datatype Event = Event(kind: string, delta: Option<string>, errorMessage: Option<string>)

  /**
   How the upstream event sequence ends: exhausted, or broken by a transport failure
   (also the shape of a refused `responses.create`, which throws at the first pull).
   */
  datatype UpstreamEnd = Exhausted | Broken(message: Option<string>)

  datatype Upstream = Upstream(events: seq<Event>, end: UpstreamEnd)

  /* ---------------------------------------------------------------- results */

  /** The one-shot result: the text, or the failure thrown to the caller. */
  datatype Completion = Completed(text: string) | Raised(message: Option<string>)

  /** How a fragment sequence ends: normally, or by throwing (with `err.message`, if any). */
  datatype Ending = Finished | Failed(message: Option<string>)

  /** Everything a consumer of `chatStream` observes: the fragments in order, then the ending. */
  datatype Outcome = Outcome(fragments: seq<string>, ending: Ending)

  /** What one pull of the generator gives: a fragment, the end, or a thrown failure. */
  datatype Step = Yielded(fragment: string) | Returned | Threw(message: Option<string>)

  /**
   The `i`-th pull of the generator whose run is `o`, for the pulls a consumer can make
   before the generator is done: one per fragment, then the one that returns or throws.
   */
  function Pull(o: Outcome, i: nat): (s: Step)
    requires i <= |o.fragments|
    ensures s.Yielded? <==> i < |o.fragments|
    ensures s.Yielded? ==> s.fragment == o.fragments[i]
    ensures s.Returned? <==> i == |o.fragments| && o.ending == Finished
    ensures s.Threw? <==> i == |o.fragments| && o.ending.Failed?
    ensures s.Threw? ==> o.ending == Failed(s.message)
  {
    if i < |o.fragments| then Yielded(o.fragments[i])
    else match o.ending
      case Finished => Returned
      case Failed(m) => Threw(m)
  }

  /** Everything a consumer pulls from the run `o`, in order, up to and including the last pull. */
  function Pulls(o: Outcome): (steps: seq<Step>)
    ensures |steps| == |o.fragments| + 1
    ensures forall i :: 0 <= i < |steps| ==> steps[i] == Pull(o, i)
  {
    seq(|o.fragments| + 1, i requires 0 <= i <= |o.fragments| => Pull(o, i))
  }

  /**
   The pulls determine the run: a consumer that sees the same steps from two runs has seen
   the same fragments and the same ending, so nothing of a run is lost by pulling it.
   */
  lemma PullsDetermineOutcome(o1: Outcome, o2: Outcome)
    requires Pulls(o1) == Pulls(o2)
    ensures o1 == o2
  {
    var n := |o1.fragments|;
    assert |o2.fragments| == n;
    forall k | 0 <= k < n ensures o1.fragments[k] == o2.fragments[k] {
      assert Pulls(o1)[k] == Pulls(o2)[k];
    }
    assert Pulls(o1)[n] == Pulls(o2)[n];
  }

  /* ---------------------------------------------------------------- chatOnce */

  /**
   `chatOnce`: in mock mode the fixed sentence, whatever the message and without asking
   the provider; live, the provider's `output_text` for the message, `""` when that is
   absent, and the provider's failure propagated as is.
   */
  function ChatOnce(svc: Service, message: string, provider: Request -> Reply): (r: Completion)
    ensures svc.mode.Mock? ==> r == Completed(MockSentence)
    ensures svc.mode.Live? ==>
      var reply := provider(Request(svc.model, message, false));
      && (r.Raised? <==> reply.CallFailed?)
      && (reply.CallFailed? ==> r.message == reply.message)
      && (reply == Replied(None) ==> r == Completed(""))
      && (reply.Replied? && reply.outputText.Some? ==> r == Completed(reply.outputText.value))
  {
    match svc.mode
    case Mock => Completed(MockSentence)
    case Live(_) =>
      match provider(Request(svc.model, message, false))
      case Replied(text) => Completed(Coalesce(text, ""))
      case CallFailed(m) => Raised(m)
  }

  /** Mock `chatOnce` answers the same for every message and every provider. */
  lemma MockChatOnceIsConstant(svc: Service, m1: string, m2: string, p1: Request -> Reply, p2: Request -> Reply)
    requires svc.mode.Mock?
    ensures ChatOnce(svc, m1, p1) == ChatOnce(svc, m2, p2) == Completed(MockSentence)
  {
  }

  /* ---------------------------------------------------------------- chatStream, mock */

  /** Mock `chatStream`: every word of the sentence with one space appended, then a normal end. */
  function MockStream(): Outcome
  {
    Outcome(Strings.AppendEach(Strings.Split(MockSentence, ' '), ' '), Finished)
  }

  /*
   The mock sentence is its seven words joined with spaces. Comparing string literals
   character by character is costly for the solver, so the join is first spelled out
   over arbitrary words, and the literal is compared with that spelling once.
   */

  /** Any seven parts joined with spaces, spelled out. */
  lemma JoinSeven(ws: seq<string>)
    requires |ws| == 7
    ensures Strings.Join(ws, ' ')
         == ws[0] + [' '] + (ws[1] + [' '] + (ws[2] + [' '] + (ws[3] + [' '] + (ws[4] + [' '] + (ws[5] + [' '] + ws[6])))))
  {
    assert Strings.Join(ws[6..], ' ') == ws[6];
    assert ws[5..][1..] == ws[6..];
    assert Strings.Join(ws[5..], ' ') == ws[5] + [' '] + Strings.Join(ws[6..], ' ');
    assert ws[4..][1..] == ws[5..];
    assert Strings.Join(ws[4..], ' ') == ws[4] + [' '] + Strings.Join(ws[5..], ' ');
    assert ws[3..][1..] == ws[4..];
    assert Strings.Join(ws[3..], ' ') == ws[3] + [' '] + Strings.Join(ws[4..], ' ');
    assert ws[2..][1..] == ws[3..];
    assert Strings.Join(ws[2..], ' ') == ws[2] + [' '] + Strings.Join(ws[3..], ' ');
    assert ws[1..][1..] == ws[2..];
    assert Strings.Join(ws[1..], ' ') == ws[1] + [' '] + Strings.Join(ws[2..], ' ');
  }

  lemma MockSentenceSpelled()
    ensures MockSentence
         == "Texto" + [' '] + ("para" + [' '] + ("hacer" + [' '] + ("test" + [' '] + ("del" + [' '] + ("text" + [' '] + "streaming")))))
  {
  }

  lemma JoinMockWords()
    ensures Strings.Join(MockWords, ' ') == MockSentence
  {
    JoinSeven(MockWords);
    MockSentenceSpelled();
  }

  /**
   The mock sentence splits on `' '` into its seven words (stated over variables equal
   to the two constants, which keeps the solver from unfolding `Split` on the literal).
   */
  lemma SplitMockSentence(s: string, ws: seq<string>)
    requires s == MockSentence && ws == MockWords
    ensures Strings.Split(s, ' ') == ws
  {
    JoinMockWords();
    assert Strings.SeparatorFree(ws, ' ');
    Strings.SplitJoin(ws, ' ');
  }

  /** The fragments of the seven words, each with its trailing space. */
  lemma AppendSpaceToMockWords(ws: seq<string>)
    requires ws == MockWords
    ensures Strings.AppendEach(ws, ' ') == ["Texto ", "para ", "hacer ", "test ", "del ", "text ", "streaming "]
  {
    var f := Strings.AppendEach(ws, ' ');
    assert f[0] == "Texto ";
    assert f[1] == "para ";
    assert f[2] == "hacer ";
    assert f[3] == "test ";
    assert f[4] == "del ";
    assert f[5] == "text ";
    assert f[6] == "streaming ";
  }

  /**
   The mock stream yields one fragment per word, in order, each the word plus one
   trailing space, and ends normally.
   */
  lemma MockStreamFragments()
    ensures MockStream().fragments
         == ["Texto ", "para ", "hacer ", "test ", "del ", "text ", "streaming "]
    ensures MockStream().ending == Finished
  {
    SplitMockSentence(MockSentence, MockWords);
    AppendSpaceToMockWords(MockWords);
  }

  /** Reading all mock fragments in order gives back the sentence and one trailing space. */
  lemma MockStreamConcat()
    ensures Strings.Concat(MockStream().fragments) == MockSentence + " "
  {
    var words := Strings.Split(MockSentence, ' ');
    Strings.ConcatAppendEach(words, ' ');
  }

  /* ---------------------------------------------------------------- chatStream, live */

  predicate IsDelta(e: Event)
  {
    e.kind == DeltaEventType
  }

  predicate IsError(e: Event)
  {
    e.kind == ErrorEventType
  }

  /** The fragment a delta event yields: its `delta`, or `""` when absent. */
  function DeltaText(e: Event): string
  {
    Coalesce(e.delta, "")
  }

  /** The message `chatStream` throws on an error event. */
  function ErrorEventMessage(e: Event): string
  {
    Coalesce(e.errorMessage, StreamErrorFallback)
  }

  /** The ending the generator takes over from an upstream that ran out without an error event. */
  function EndingOf(end: UpstreamEnd): Ending
  {
    match end
    case Exhausted => Finished
    case Broken(m) => Failed(m)
  }

  /**
   Live `chatStream` over the upstream events, as its `for await` loop runs: a delta
   event yields its text, an error event throws, every other event is passed over.
   */
  function LiveStream(events: seq<Event>, end: UpstreamEnd): (o: Outcome)
    ensures |o.fragments| <= |events|
    ensures o.ending == Finished ==> end == Exhausted
    decreases |events|
  {
    if |events| == 0 then Outcome([], EndingOf(end))
    else
      var e := events[0];
      var yielded := if IsDelta(e) then [DeltaText(e)] else [];
      if IsError(e) then Outcome(yielded, Failed(Some(ErrorEventMessage(e))))
      else
        var rest := LiveStream(events[1..], end);
        Outcome(yielded + rest.fragments, rest.ending)
  }

  /**
   `chatStream(message)`: in mock mode the mock stream, whatever the message and without
   asking the provider; live, the stream the provider answers to a streaming request for
   the configured model and the message.
   */
  function ChatStream(svc: Service, message: string, provider: Request -> Upstream): (o: Outcome)
    ensures svc.mode.Mock? ==> o == MockStream()
    ensures svc.mode.Live? ==>
      var up := provider(Request(svc.model, message, true));
      o == LiveStream(up.events, up.end)
  {
    match svc.mode
    case Mock => MockStream()
    case Live(_) =>
      var up := provider(Request(svc.model, message, true));
      LiveStream(up.events, up.end)
  }

  /* ---------------------------------------------------------------- reference definitions */

  /** The fragment an event contributes: its text for a delta event, nothing otherwise. */
  function DeltaOf(e: Event): Option<string>
  {
    if IsDelta(e) then Some(DeltaText(e)) else None
  }

  /** The texts of the delta events, in arrival order; every other event type contributes nothing. */
  function DeltaTexts(events: seq<Event>): seq<string>
  {
    Collect(events, DeltaOf)
  }

  predicate ErrorFree(events: seq<Event>)
  {
    forall k :: 0 <= k < |events| ==> !IsError(events[k])
  }

  /** Event `i` is the first error event. */
  predicate FirstErrorAt(events: seq<Event>, i: int)
  {
    0 <= i < |events| && IsError(events[i]) && ErrorFree(events[..i])
  }

  /** One event put in front contributes its text if it is a delta event, nothing otherwise. */
  lemma DeltaTextsCons(e: Event, rest: seq<Event>)
    ensures DeltaTexts([e] + rest) == (if IsDelta(e) then [DeltaText(e)] else []) + DeltaTexts(rest)
  {
    CollectAppend([e], rest, DeltaOf);
    CollectSingle(e, DeltaOf);
  }

  /**
   Without an error event, the live stream yields exactly the delta texts, in upstream
   order, and ends as the upstream ends: normally when it is exhausted.
   */
  lemma {:induction false} LiveStreamWithoutError(events: seq<Event>, end: UpstreamEnd)
    requires ErrorFree(events)
    ensures LiveStream(events, end) == Outcome(DeltaTexts(events), EndingOf(end))
    decreases |events|
  {
    if |events| > 0 {
      LiveStreamWithoutError(events[1..], end);
      DeltaTextsCons(events[0], events[1..]);
      assert [events[0]] + events[1..] == events;
    }
  }

  /**
   At the first error event the live stream stops: it has yielded the delta texts of the
   events before it, and fails with that event's message, or "OpenAI stream error" when
   the message is absent (an empty message is kept).
   */
  lemma {:induction false} LiveStreamAbortsAtFirstError(events: seq<Event>, i: int, end: UpstreamEnd)
    requires FirstErrorAt(events, i)
    ensures LiveStream(events, end)
         == Outcome(DeltaTexts(events[..i]), Failed(Some(ErrorEventMessage(events[i]))))
    decreases |events|
  {
    if i == 0 {
      assert events[..0] == [];
    } else {
      var tail := events[1..];
      assert tail[..i - 1] == events[1..i];
      assert FirstErrorAt(tail, i - 1);
      LiveStreamAbortsAtFirstError(tail, i - 1, end);
      assert events[..i] == [events[0]] + events[1..i];
      DeltaTextsCons(events[0], events[1..i]);
    }
  }

  /** Whatever follows the first error event, and however the upstream ends, changes nothing. */
  lemma LiveStreamIgnoresAfterError(events: seq<Event>, i: int, later: seq<Event>, end1: UpstreamEnd, end2: UpstreamEnd)
    requires FirstErrorAt(events, i)
    ensures LiveStream(events[..i + 1] + later, end1) == LiveStream(events, end2)
  {
    var cut := events[..i + 1] + later;
    assert cut[..i] == events[..i];
    assert cut[i] == events[i];
    LiveStreamAbortsAtFirstError(cut, i, end1);
    LiveStreamAbortsAtFirstError(events, i, end2);
  }

  /**
   Before any error event the live stream has already yielded the delta texts of the
   events so far, in order, whatever comes after them.
   */
  lemma {:induction false} ErrorFreePrefixYields(prefix: seq<Event>, after: seq<Event>, end: UpstreamEnd)
    requires ErrorFree(prefix)
    ensures DeltaTexts(prefix) <= LiveStream(prefix + after, end).fragments
    decreases |prefix|
  {
    if |prefix| == 0 {
      assert prefix + after == after;
    } else {
      assert (prefix + after)[1..] == prefix[1..] + after;
      assert (prefix + after)[0] == prefix[0];
      ErrorFreePrefixYields(prefix[1..], after, end);
      DeltaTextsCons(prefix[0], prefix[1..]);
      assert [prefix[0]] + prefix[1..] == prefix;
    }
  }

  /**
   A delta event without a `delta` field is not skipped: it yields an empty fragment, at
   the position given by the delta events before it.
   */
  lemma MissingDeltaYieldsEmpty(before: seq<Event>, e: Event, after: seq<Event>, end: UpstreamEnd)
    requires IsDelta(e) && e.delta.None?
    requires ErrorFree(before)
    ensures var o := LiveStream(before + [e] + after, end);
      |DeltaTexts(before)| < |o.fragments| && o.fragments[|DeltaTexts(before)|] == ""
  {
    CollectAppend(before, [e], DeltaOf);
    CollectSingle(e, DeltaOf);
    assert ErrorFree(before + [e]);
    ErrorFreePrefixYields(before + [e], after, end);
  }

  /** A sequence holding an error event has a first one. */
  lemma {:induction false} FirstErrorFromSome(events: seq<Event>, j: int)
    requires 0 <= j < |events| && IsError(events[j])
    ensures exists k :: FirstErrorAt(events, k)
    decreases j
  {
    if !ErrorFree(events[..j]) {
      var k :| 0 <= k < j && IsError(events[..j][k]);
      FirstErrorFromSome(events, k);
    } else {
      assert FirstErrorAt(events, j);
    }
  }

  /**
   The live stream, fully specified by the reference definitions: without an error event
   it yields every delta text and ends as the upstream does; otherwise there is a first
   error event, and the stream yields the delta texts before it and fails with its message.
   In particular the generator returns normally exactly when the upstream is exhausted
   without an error event.
   */
  lemma LiveStreamSpec(events: seq<Event>, end: UpstreamEnd)
    ensures var o := LiveStream(events, end);
      && (ErrorFree(events) ==> o == Outcome(DeltaTexts(events), EndingOf(end)))
      && (!ErrorFree(events) ==>
            exists i :: FirstErrorAt(events, i)
              && o == Outcome(DeltaTexts(events[..i]), Failed(Some(ErrorEventMessage(events[i])))))
      && (o.ending == Finished <==> ErrorFree(events) && end == Exhausted)
  {
    if ErrorFree(events) {
      LiveStreamWithoutError(events, end);
    } else {
      var j :| 0 <= j < |events| && IsError(events[j]);
      FirstErrorFromSome(events, j);
      var i :| FirstErrorAt(events, i);
      LiveStreamAbortsAtFirstError(events, i, end);
    }
  }
}
