/**
 Server-sent-event frames as the streaming endpoint writes them: four kinds of frame,
 each written as `event: <name>\ndata: <payload>\n\n`. `ready` and `done` carry the
 literal payload `{}`; `delta` and `error` carry a one-field JSON object produced by
 `JSON.stringify`, which stays a parameter here (its escaping is not modelled).
 */
module Sse {
  import opened Nullish

  datatype Frame = Ready | Delta(text: string) | Done | Error(message: string)

  /** The one-field JSON object `{ key: value }` handed to `JSON.stringify`. */
  datatype JsonField = JsonField(key: string, value: string)

  /** Terminal frames end a stream; nothing may follow them. */
  predicate IsTerminal(f: Frame)
  {
    f.Done? || f.Error?
  }

  function EventName(f: Frame): string
  {
    match f
    case Ready => "ready"
    case Delta(_) => "delta"
    case Done => "done"
    case Error(_) => "error"
  }

  /** The payload line: `{}`, `JSON.stringify({ delta })` or `JSON.stringify({ message })`. */
  function Payload(f: Frame, stringify: JsonField -> string): string
  {
    match f
    case Ready => "{}"
    case Delta(text) => stringify(JsonField("delta", text))
    case Done => "{}"
    case Error(message) => stringify(JsonField("message", message))
  }

  const EventPrefix: string := "event: "
  const DataPrefix: string := "\ndata: "
  const FrameEnd: string := "\n\n"

  /** The text written for one frame. */
  function Render(f: Frame, stringify: JsonField -> string): string
  {
    EventPrefix + EventName(f) + DataPrefix + Payload(f, stringify) + FrameEnd
  }

  /** The exact text of the frames without data: `ready` and `done`. */
  lemma BareFrameText(stringify: JsonField -> string)
    ensures Render(Ready, stringify) == "event: ready\ndata: {}\n\n"
    ensures Render(Done, stringify) == "event: done\ndata: {}\n\n"
  {
  }

  /** The exact text of the frames carrying JSON: `delta` and `error`. */
  lemma DataFrameText(stringify: JsonField -> string, text: string, message: string)
    ensures Render(Delta(text), stringify) == "event: delta\ndata: " + stringify(JsonField("delta", text)) + "\n\n"
    ensures Render(Error(message), stringify) == "event: error\ndata: " + stringify(JsonField("message", message)) + "\n\n"
  {
  }

  /* ---------------------------------------------------------------- reading a frame back */

  /** The index of the first `c` in `s`, or `|s|` when there is none. */
  function IndexOf(s: string, c: char): (j: nat)
    ensures j <= |s|
    ensures c !in s[..j]
    ensures j < |s| ==> s[j] == c
    decreases |s|
  {
    if |s| == 0 then 0
    else if s[0] == c then 0
    else
      var j := 1 + IndexOf(s[1..], c);
      assert s[..j] == [s[0]] + s[1..][..j - 1];
      j
  }

  /**
   How a client reads one frame: the event name up to the first line break, and the
   payload after `data: ` up to the blank line. `None` when the text is not a frame.
   */
  function ParseFrame(t: string): Option<(string, string)>
  {
    if |t| < |EventPrefix| + |FrameEnd| then None
    else if t[..|EventPrefix|] != EventPrefix || t[|t| - |FrameEnd|..] != FrameEnd then None
    else
      var body := t[|EventPrefix|..|t| - |FrameEnd|];
      var j := IndexOf(body, '\n');
      if j + |DataPrefix| <= |body| && body[j..j + |DataPrefix|] == DataPrefix then
        Some((body[..j], body[j + |DataPrefix|..]))
      else None
  }

  /** Recognises a frame from its event name and payload, given a JSON reader. */
  function DecodeFrame(name: string, payload: string, parse: string -> Option<JsonField>): Option<Frame>
  {
    if name == "ready" then Some(Ready)
    else if name == "done" then Some(Done)
    else if name == "delta" then
      match parse(payload)
      case Some(JsonField(key, value)) => if key == "delta" then Some(Delta(value)) else None
      case None => None
    else if name == "error" then
      match parse(payload)
      case Some(JsonField(key, value)) => if key == "message" then Some(Error(value)) else None
      case None => None
    else None
  }

  /** A frame's text splits back into its event name and its payload. */
  lemma ParseRender(f: Frame, stringify: JsonField -> string)
    ensures ParseFrame(Render(f, stringify)) == Some((EventName(f), Payload(f, stringify)))
  {
    var name := EventName(f);
    var payload := Payload(f, stringify);
    var t := Render(f, stringify);
    var body := name + DataPrefix + payload;
    assert t == EventPrefix + body + FrameEnd;
    assert t[..|EventPrefix|] == EventPrefix;
    assert t[|t| - |FrameEnd|..] == FrameEnd;
    assert t[|EventPrefix|..|t| - |FrameEnd|] == body;
    assert '\n' !in name;
    assert body[..|name|] == name;
    assert body[|name|] == '\n';
    var j := IndexOf(body, '\n');
    assert j == |name|;
    assert body[j..j + |DataPrefix|] == DataPrefix;
    assert body[j + |DataPrefix|..] == payload;
  }

  /**
   Given a JSON reader that undoes `JSON.stringify` on one-field objects, every frame
   read back from its text is the frame that was written; in particular distinct frames
   are written as distinct texts.
   */
  lemma DecodeRender(f: Frame, stringify: JsonField -> string, parse: string -> Option<JsonField>)
    requires forall v :: parse(stringify(v)) == Some(v)
    ensures var p := ParseFrame(Render(f, stringify));
      p.Some? && DecodeFrame(p.value.0, p.value.1, parse) == Some(f)
  {
    ParseRender(f, stringify);
  }
}
