/**
 The few JavaScript string operations the chat service and controller rely on:
 `String.prototype.split` with a one-character separator, `Array.prototype.join`,
 concatenation of the pieces a client receives, and `String.prototype.trim`.
 */
module Strings {

  /* ---------------------------------------------------------------- split / join */

  /** `parts.join(sep)`: the parts with one separator between neighbours. */
  function Join(parts: seq<string>, sep: char): string
  {
    if |parts| == 0 then ""
    else if |parts| == 1 then parts[0]
    else parts[0] + [sep] + Join(parts[1..], sep)
  }

  /** True when no part contains the separator. */
  predicate SeparatorFree(parts: seq<string>, sep: char)
  {
    forall i :: 0 <= i < |parts| ==> sep !in parts[i]
  }

  /**
   `s.split(sep)` for a one-character separator: the maximal separator-free pieces,
   one more than the separators in `s` (so `"".split(sep)` is `[""]` and adjacent
   separators give an empty piece). Joining the pieces back gives `s`.
   */
  function Split(s: string, sep: char): (parts: seq<string>)
    ensures |parts| >= 1
    ensures SeparatorFree(parts, sep)
    ensures Join(parts, sep) == s
    decreases |s|
  {
    if |s| == 0 then [""]
    else
      var rest := Split(s[1..], sep);
      if s[0] == sep then
        assert s == [sep] + s[1..];
        [""] + rest
      else
        assert s == [s[0]] + s[1..];
        assert |rest| > 1 ==> Join(rest, sep) == rest[0] + [sep] + Join(rest[1..], sep);
        assert ([[s[0]] + rest[0]] + rest[1..])[1..] == rest[1..];
        [[s[0]] + rest[0]] + rest[1..]
  }

  /** A separator-free word followed by the separator splits off as exactly one piece. */
  lemma {:induction false} SplitAfterWord(w: string, sep: char, t: string)
    requires sep !in w
    ensures Split(w + [sep] + t, sep) == [w] + Split(t, sep)
    decreases |w|
  {
    if |w| == 0 {
      assert w + [sep] + t == [sep] + t;
      assert ([sep] + t)[1..] == t;
    } else {
      var s := w + [sep] + t;
      assert s[1..] == w[1..] + [sep] + t;
      SplitAfterWord(w[1..], sep, t);
      assert [s[0]] + w[1..] == w;
    }
  }

  /** A separator-free string splits into itself alone. */
  lemma {:induction false} SplitOfWord(w: string, sep: char)
    requires sep !in w
    ensures Split(w, sep) == [w]
    decreases |w|
  {
    if |w| > 0 {
      SplitOfWord(w[1..], sep);
      assert [w[0]] + w[1..] == w;
    }
  }

  /**
   The other half of the round trip: splitting a join of separator-free parts gives
   the parts back. Together with `Split`'s contract, `Split` and `Join` are inverse
   bijections between strings and non-empty separator-free part lists.
   */
  lemma {:induction false} SplitJoin(parts: seq<string>, sep: char)
    requires |parts| >= 1
    requires SeparatorFree(parts, sep)
    ensures Split(Join(parts, sep), sep) == parts
    decreases |parts|
  {
    if |parts| == 1 {
      SplitOfWord(parts[0], sep);
    } else {
      assert sep !in parts[0];
      SplitJoin(parts[1..], sep);
      SplitAfterWord(parts[0], sep, Join(parts[1..], sep));
      assert [parts[0]] + parts[1..] == parts;
    }
  }

  /* ---------------------------------------------------------------- concatenation */

  /** What a reader of all the pieces sees: their concatenation, in order. */
  function Concat(pieces: seq<string>): string
  {
    if |pieces| == 0 then "" else pieces[0] + Concat(pieces[1..])
  }

  /** Concatenation distributes over appending piece lists. */
  lemma {:induction false} ConcatAppend(a: seq<string>, b: seq<string>)
    ensures Concat(a + b) == Concat(a) + Concat(b)
    decreases |a|
  {
    if |a| > 0 {
      assert (a + b)[0] == a[0];
      assert (a + b)[1..] == a[1..] + b;
      ConcatAppend(a[1..], b);
      assert Concat(a + b) == a[0] + Concat(a[1..] + b);
      assert Concat(a) == a[0] + Concat(a[1..]);
    } else {
      assert a + b == b;
    }
  }

  /** Every part with one `c` appended: `parts.map(w => w + c)`. */
  function AppendEach(parts: seq<string>, c: char): (r: seq<string>)
    ensures |r| == |parts|
    ensures forall i :: 0 <= i < |parts| ==> r[i] == parts[i] + [c]
  {
    seq(|parts|, i requires 0 <= i < |parts| => parts[i] + [c])
  }

  /** Appending `c` to every part and concatenating is joining with `c` and one final `c`. */
  lemma {:induction false} ConcatAppendEach(parts: seq<string>, c: char)
    requires |parts| >= 1
    ensures Concat(AppendEach(parts, c)) == Join(parts, c) + [c]
    decreases |parts|
  {
    var r := AppendEach(parts, c);
    if |parts| == 1 {
      assert r[1..] == [];
    } else {
      assert r[1..] == AppendEach(parts[1..], c);
      ConcatAppendEach(parts[1..], c);
    }
  }

  /* ---------------------------------------------------------------- trim */

  /**
   The code points `String.prototype.trim` removes: ECMAScript's WhiteSpace (TAB, VT, FF,
   ZWNBSP and the Unicode category Zs, listed here as of Unicode 15) and LineTerminator
   (LF, CR, LS, PS).
   */
  predicate IsJsWhitespace(c: char)
  {
    || c == '\t' || c == '\U{000B}' || c == '\U{000C}' || c == '\U{FEFF}'
    || c == ' ' || c == '\U{00A0}' || c == '\U{1680}'
    || ('\U{2000}' <= c <= '\U{200A}')
    || c == '\U{202F}' || c == '\U{205F}' || c == '\U{3000}'
    || c == '\n' || c == '\r' || c == '\U{2028}' || c == '\U{2029}'
  }

  predicate AllWhitespace(s: string)
  {
    forall k :: 0 <= k < |s| ==> IsJsWhitespace(s[k])
  }

  /** The length of the longest whitespace prefix of `s`. */
  function LeadingWhitespace(s: string): (n: nat)
    ensures n <= |s|
    ensures AllWhitespace(s[..n])
    ensures n < |s| ==> !IsJsWhitespace(s[n])
    decreases |s|
  {
    if |s| > 0 && IsJsWhitespace(s[0]) then
      var n := 1 + LeadingWhitespace(s[1..]);
      assert forall k :: 1 <= k < n ==> s[..n][k] == s[1..][..n - 1][k - 1];
      n
    else 0
  }

  /** The length of the longest whitespace suffix of `s`. */
  function TrailingWhitespace(s: string): (n: nat)
    ensures n <= |s|
    ensures AllWhitespace(s[|s| - n..])
    ensures n < |s| ==> !IsJsWhitespace(s[|s| - 1 - n])
    decreases |s|
  {
    if |s| > 0 && IsJsWhitespace(s[|s| - 1]) then
      var init := s[..|s| - 1];
      var n := 1 + TrailingWhitespace(init);
      assert forall k :: |s| - n <= k < |s| - 1 ==> s[k] == init[k];
      n
    else 0
  }

  /** `r` sits in `s` at offset `i` with only whitespace around it. */
  predicate EnclosedAt(s: string, r: string, i: int)
  {
    && 0 <= i && i + |r| <= |s|
    && s[i..i + |r|] == r
    && AllWhitespace(s[..i])
    && AllWhitespace(s[i + |r|..])
  }

  /** Starts and ends with something other than whitespace (or is empty). */
  predicate Tight(r: string)
  {
    |r| > 0 ==> !IsJsWhitespace(r[0]) && !IsJsWhitespace(r[|r| - 1])
  }

  /**
   `s.trim()`: `s` without its leading and trailing whitespace. The result is the
   infix of `s` that only whitespace surrounds and that neither starts nor ends with
   whitespace; it is empty exactly when `s` is all whitespace.
   */
  function Trim(s: string): (r: string)
    ensures exists i :: EnclosedAt(s, r, i)
    ensures Tight(r)
    ensures |r| == 0 <==> AllWhitespace(s)
  {
    var i := LeadingWhitespace(s);
    if i == |s| then
      assert EnclosedAt(s, "", 0);
      ""
    else
      var t := TrailingWhitespace(s);
      assert |s| - t > i;
      var r := s[i..|s| - t];
      assert r[|r| - 1] == s[|s| - 1 - t];
      assert EnclosedAt(s, r, i);
      assert !IsJsWhitespace(s[i]);
      r
  }

  /** Of two tight, whitespace-enclosed infixes, a non-empty one cannot start before the other. */
  lemma EnclosedStartOrder(s: string, r: string, i: int, m: string, p: int)
    requires EnclosedAt(s, r, i) && Tight(r) && |r| > 0
    requires EnclosedAt(s, m, p)
    ensures p <= i
  {
    assert s[i] == r[0];
  }

  /** Of two tight, whitespace-enclosed infixes, a non-empty one cannot end after the other. */
  lemma EnclosedEndOrder(s: string, r: string, i: int, m: string, p: int)
    requires EnclosedAt(s, r, i) && Tight(r) && |r| > 0
    requires EnclosedAt(s, m, p)
    ensures i + |r| <= p + |m|
  {
    var j := i + |r|;
    var q := p + |m|;
    assert s[j - 1] == r[|r| - 1];
  }

  /**
   `Trim` is the only way to strip `s` to a tight infix: whenever `s` is a whitespace
   prefix, a tight middle and a whitespace suffix, the middle is `Trim(s)`.
   */
  lemma TrimUnique(a: string, m: string, b: string)
    requires AllWhitespace(a) && AllWhitespace(b) && Tight(m)
    ensures Trim(a + m + b) == m
  {
    var s := a + m + b;
    var e := |a| + |m|;
    assert s[..|a|] == a && s[|a|..e] == m && s[e..] == b;
    assert EnclosedAt(s, m, |a|);
    if |m| == 0 {
      assert AllWhitespace(s) by {
        forall k | 0 <= k < |s| ensures IsJsWhitespace(s[k]) {
          if k < |a| { assert s[k] == a[k]; } else { assert s[k] == b[k - |a|]; }
        }
      }
    } else {
      var r := Trim(s);
      var i :| EnclosedAt(s, r, i);
      assert s[|a|] == m[0];
      assert |r| > 0;
      EnclosedStartOrder(s, r, i, m, |a|);
      EnclosedStartOrder(s, m, |a|, r, i);
      EnclosedEndOrder(s, r, i, m, |a|);
      EnclosedEndOrder(s, m, |a|, r, i);
    }
  }

  /** Trimming twice is trimming once. */
  lemma TrimIdempotent(s: string)
    ensures Trim(Trim(s)) == Trim(s)
  {
    var r := Trim(s);
    assert "" + r + "" == r;
    TrimUnique("", r, "");
  }
}
