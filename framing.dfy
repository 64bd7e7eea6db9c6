/** The text operations the streaming transport applies to each chunk of its
    response: JavaScript's `replace(/^\s+/, "")`, `split("\n\n")` and
    `substring("data: ".length)`. */
module Framing {
  import opened TransportEvents

  /** JavaScript's `\s`: the ECMAScript WhiteSpace and LineTerminator characters. */
  predicate IsWhitespace(c: char) {
    || c == '\t' || c == '\n' || c == '\U{B}' || c == '\U{C}' || c == '\r' || c == ' '
    || c == '\U{A0}' || c == '\U{1680}' || ('\U{2000}' <= c <= '\U{200A}')
    || c == '\U{2028}' || c == '\U{2029}' || c == '\U{202F}' || c == '\U{205F}'
    || c == '\U{3000}' || c == '\U{FEFF}'
  }

  predicate StartsWithWhitespace(s: string) {
    |s| > 0 && IsWhitespace(s[0])
  }

  /** `s.replace(/^\s+/, "")`: the suffix of `s` left after its maximal
      whitespace prefix. */
  function StripLeadingWhitespace(s: string): string
    decreases |s|
  {
    if StartsWithWhitespace(s) then StripLeadingWhitespace(s[1..]) else s
  }

  /** What is left is a suffix, everything removed is whitespace, and what
      is left does not start with whitespace. */
  lemma {:induction false} StripSpec(s: string)
    ensures var r := StripLeadingWhitespace(s);
            |r| <= |s| && r == s[|s| - |r|..] &&
            (forall i :: 0 <= i < |s| - |r| ==> IsWhitespace(s[i])) &&
            !StartsWithWhitespace(r)
    decreases |s|
  {
    if StartsWithWhitespace(s) {
      StripSpec(s[1..]);
      var r := StripLeadingWhitespace(s);
      assert s[1..][|s| - 1 - |r|..] == s[|s| - |r|..];
      forall i | 0 <= i < |s| - |r|
        ensures IsWhitespace(s[i])
      {
        if i > 0 {
          assert s[i] == s[1..][i - 1];
        }
      }
    }
  }

  /** Stripping keeps a string that does not start with whitespace, and
      removes a leading run that spans a whole all-whitespace prefix. */
  lemma StripAppend(a: string, b: string)
    ensures StripLeadingWhitespace(a) != "" ==> StripLeadingWhitespace(a + b) == StripLeadingWhitespace(a) + b
    ensures StripLeadingWhitespace(a) == "" ==> StripLeadingWhitespace(a + b) == StripLeadingWhitespace(b)
  {
    if StartsWithWhitespace(a) {
      assert (a + b)[1..] == a[1..] + b;
      StripAppend(a[1..], b);
    } else if a == "" {
      assert a + b == b;
    }
  }

  const Separator: string := "\n\n"

  /** A record separator `"\n\n"` starts at index `k` of `s`. */
  predicate SeparatorAt(s: string, k: int) {
    0 <= k && k + 1 < |s| && s[k] == '\n' && s[k + 1] == '\n'
  }

  predicate NoSeparator(s: string) {
    forall k | 0 <= k < |s| :: !SeparatorAt(s, k)
  }

  predicate EndsWithNewline(s: string) {
    |s| > 0 && s[|s| - 1] == '\n'
  }

  /** The leftmost separator of `s`, if any (what `split` searches for). */
  function FindSeparator(s: string): (r: Option<nat>)
    ensures r.Some? ==> r.value + 2 <= |s|
    decreases |s|
  {
    if |s| < 2 then None
    else if s[0] == '\n' && s[1] == '\n' then Some(0)
    else
      match FindSeparator(s[1..])
      case None => None
      case Some(k) => Some(k + 1)
  }

  /** The search finds the leftmost separator, and finds none only when
      there is none. */
  lemma {:induction false} FindSeparatorSpec(s: string)
    ensures FindSeparator(s).None? ==> NoSeparator(s)
    ensures FindSeparator(s).Some? ==>
              SeparatorAt(s, FindSeparator(s).value) &&
              forall k :: 0 <= k < FindSeparator(s).value ==> !SeparatorAt(s, k)
    decreases |s|
  {
    if |s| >= 2 && !(s[0] == '\n' && s[1] == '\n') {
      FindSeparatorSpec(s[1..]);
      assert forall k :: 1 <= k && SeparatorAt(s, k) ==> SeparatorAt(s[1..], k - 1);
      assert forall k :: 0 <= k && SeparatorAt(s[1..], k) ==> SeparatorAt(s, k + 1);
    }
  }

  /** A separator with none before it is the one the search finds. */
  lemma LeftmostIs(s: string, k: nat)
    requires SeparatorAt(s, k)
    requires forall j :: 0 <= j < k ==> !SeparatorAt(s, j)
    ensures FindSeparator(s) == Some(k)
  {
    FindSeparatorSpec(s);
  }

  /** The pieces that separators terminate, each followed by its separator. */
  function Terminated(records: seq<string>): string {
    if records == [] then "" else records[0] + Separator + Terminated(records[1..])
  }

  /** Joins the pieces of a split back together. */
  function Join(parts: seq<string>): string
    requires |parts| >= 1
  {
    Terminated(parts[..|parts| - 1]) + parts[|parts| - 1]
  }

  /** The pieces of a split form a leftmost decomposition of a string: they
      join back to it, none holds a separator, and no piece that a separator
      follows ends with a newline (else the separator would start one
      character earlier). */
  ghost predicate IsLeftmostSplit(s: string, parts: seq<string>) {
    && |parts| >= 1
    && Join(parts) == s
    && (forall i :: 0 <= i < |parts| ==> NoSeparator(parts[i]))
    && (forall i :: 0 <= i < |parts| - 1 ==> !EndsWithNewline(parts[i]))
  }

  /** `s.split("\n\n")`. */
  function Split(s: string): (parts: seq<string>)
    ensures |parts| >= 1
    decreases |s|
  {
    match FindSeparator(s)
    case None => [s]
    case Some(k) => [s[..k]] + Split(s[k + 2..])
  }

  lemma JoinCons(p: string, rest: seq<string>)
    requires |rest| >= 1
    ensures Join([p] + rest) == p + Separator + Join(rest)
  {
    var parts := [p] + rest;
    assert parts[..|parts| - 1] == [p] + rest[..|rest| - 1];
  }

  /** The text before the leftmost separator is a complete piece. */
  lemma PieceBeforeSeparator(s: string, k: nat)
    requires FindSeparator(s) == Some(k)
    ensures s == s[..k] + Separator + s[k + 2..]
    ensures NoSeparator(s[..k]) && !EndsWithNewline(s[..k])
  {
    FindSeparatorSpec(s);
    forall j | 0 <= j < k ensures !SeparatorAt(s[..k], j) {
      assert SeparatorAt(s[..k], j) ==> SeparatorAt(s, j);
    }
    assert EndsWithNewline(s[..k]) ==> SeparatorAt(s, k - 1);
  }

  /** `split` returns the leftmost decomposition of its input. */
  lemma {:induction false} SplitIsLeftmost(s: string)
    ensures IsLeftmostSplit(s, Split(s))
    decreases |s|
  {
    FindSeparatorSpec(s);
    match FindSeparator(s)
    case None =>
    case Some(k) =>
      PieceBeforeSeparator(s, k);
      var rest := Split(s[k + 2..]);
      SplitIsLeftmost(s[k + 2..]);
      JoinCons(s[..k], rest);
      var parts := [s[..k]] + rest;
      assert parts == Split(s);
      forall i | 0 <= i < |parts| ensures NoSeparator(parts[i]) {
        if i > 0 { assert parts[i] == rest[i - 1]; }
      }
      forall i | 0 <= i < |parts| - 1 ensures !EndsWithNewline(parts[i]) {
        if i > 0 { assert parts[i] == rest[i - 1]; }
      }
  }

  /** The leftmost decomposition is unique: any decomposition with the
      properties above is the one `split` returns. */
  lemma {:induction false} LeftmostSplitUnique(s: string, parts: seq<string>)
    requires IsLeftmostSplit(s, parts)
    ensures parts == Split(s)
    decreases |parts|
  {
    if |parts| == 1 {
      assert s == parts[0];
      FindSeparatorSpec(s);
    } else {
      var p := parts[0];
      var tail := parts[1..];
      assert parts == [p] + tail;
      JoinCons(p, tail);
      var rest := Join(tail);
      assert s == p + Separator + rest;
      assert SeparatorAt(s, |p|);
      forall j | 0 <= j < |p| ensures !SeparatorAt(s, j) {
        if j + 1 < |p| {
          assert !SeparatorAt(p, j);
        } else {
          assert !EndsWithNewline(p);
        }
      }
      LeftmostIs(s, |p|);
      assert s[|p| + 2..] == rest;
      assert s[..|p|] == p;
      assert IsLeftmostSplit(rest, tail) by {
        forall i | 0 <= i < |tail| - 1 ensures !EndsWithNewline(tail[i]) {
          assert tail[i] == parts[i + 1];
        }
      }
      LeftmostSplitUnique(rest, tail);
    }
  }

  /** A piece without separator, not ending in a newline, followed by a
      separator, is the first piece of the split. */
  lemma SplitCons(p: string, rest: string)
    requires NoSeparator(p) && !EndsWithNewline(p)
    ensures Split(p + Separator + rest) == [p] + Split(rest)
  {
    var s := p + Separator + rest;
    assert SeparatorAt(s, |p|);
    forall j | 0 <= j < |p| ensures !SeparatorAt(s, j) {
      if j + 1 < |p| {
        assert !SeparatorAt(p, j);
      } else {
        assert !EndsWithNewline(p);
      }
    }
    LeftmostIs(s, |p|);
    assert s[..|p|] == p && s[|p| + 2..] == rest;
  }

  function Init(parts: seq<string>): seq<string>
    requires |parts| >= 1
  {
    parts[..|parts| - 1]
  }

  function Last(parts: seq<string>): string
    requires |parts| >= 1
  {
    parts[|parts| - 1]
  }

  /** Appending text cannot move the leftmost separator found in a prefix. */
  lemma FindSeparatorPrefix(x: string, y: string, k: nat)
    requires FindSeparator(x) == Some(k)
    ensures FindSeparator(x + y) == Some(k)
  {
    FindSeparatorSpec(x);
    var xy := x + y;
    assert SeparatorAt(xy, k);
    forall j | 0 <= j < k ensures !SeparatorAt(xy, j) {
      assert SeparatorAt(xy, j) ==> SeparatorAt(x, j);
    }
    LeftmostIs(xy, k);
  }

  lemma SplitAtSeparator(s: string, k: nat)
    requires FindSeparator(s) == Some(k)
    ensures Split(s) == [s[..k]] + Split(s[k + 2..])
  {
  }

  lemma InitLastCons(p: string, rest: seq<string>)
    requires |rest| >= 1
    ensures Init([p] + rest) == [p] + Init(rest)
    ensures Last([p] + rest) == Last(rest)
  {
  }

  /** One step of SplitAppend: the piece before the leftmost separator of
      `x` is also the first piece of `x + y`. */
  lemma SplitAppendStep(x: string, y: string, k: nat)
    requires FindSeparator(x) == Some(k)
    requires Split(x[k + 2..] + y) == Init(Split(x[k + 2..])) + Split(Last(Split(x[k + 2..])) + y)
    ensures Split(x + y) == Init(Split(x)) + Split(Last(Split(x)) + y)
  {
    var xy := x + y;
    var head, tail := x[..k], x[k + 2..];
    FindSeparatorPrefix(x, y, k);
    SlicesOfAppend(x, y, k);
    SplitAtSeparator(x, k);
    SplitAtSeparator(xy, k);
    InitLastCons(head, Split(tail));
    ConsAlgebra(head, Split(tail), Split(tail + y), Split(Last(Split(tail)) + y));
  }

  lemma SlicesOfAppend(x: string, y: string, k: nat)
    requires k + 2 <= |x|
    ensures (x + y)[..k] == x[..k] && (x + y)[k + 2..] == x[k + 2..] + y
  {
  }

  lemma ConsAlgebra(head: string, pieces: seq<string>, extended: seq<string>, rest: seq<string>)
    requires |pieces| >= 1
    requires extended == Init(pieces) + rest
    ensures [head] + extended == Init([head] + pieces) + rest
  {
    InitLastCons(head, pieces);
  }

  /** Splitting a longer string re-splits only the unterminated tail: the
      complete pieces of `x` stay complete pieces of `x + y`. */
  lemma {:induction false} SplitAppend(x: string, y: string)
    ensures Split(x + y) == Init(Split(x)) + Split(Last(Split(x)) + y)
    decreases |x|
  {
    var fx := FindSeparator(x);
    if fx.None? {
      assert Split(x) == [x];
    } else {
      SplitAppend(x[fx.value + 2..], y);
      SplitAppendStep(x, y, fx.value);
    }
  }

  /** `line.substring("data: ".length)`: the first six characters go,
      whatever they are; a shorter line gives the empty string. */
  function Unwrap(line: string): (r: string)
    ensures |line| >= 6 ==> line == line[..6] + r
    ensures |line| < 6 ==> r == ""
  {
    if |line| >= 6 then line[6..] else ""
  }

  /** A record written as `data: <payload>` gives back its payload. */
  lemma UnwrapDataRecord(payload: string)
    ensures Unwrap("data: " + payload) == payload
  {
  }

  /** The chunks of a body, joined in arrival order. */
  function Concat(chunks: seq<string>): string {
    if chunks == [] then "" else chunks[0] + Concat(chunks[1..])
  }
}
