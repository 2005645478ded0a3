/** The few .NET string operations the controllers rely on: white-space
    tests, Trim, and Split on one separator with or without the
    TrimEntries and RemoveEmptyEntries options. */
module Text {
  import opened Common
  import opened Seqs

  /** Char.IsWhiteSpace: the Unicode space, line and paragraph separators
      plus the control characters U+0009..U+000D and U+0085. */
  predicate IsWhiteSpace(c: char)
  {
    || ('\U{0009}' <= c <= '\U{000D}')
    || c == '\U{0020}' || c == '\U{0085}' || c == '\U{00A0}' || c == '\U{1680}'
    || ('\U{2000}' <= c <= '\U{200A}')
    || c == '\U{2028}' || c == '\U{2029}' || c == '\U{202F}' || c == '\U{205F}' || c == '\U{3000}'
  }

  predicate AllWhiteSpace(s: string)
  {
    forall i :: 0 <= i < |s| ==> IsWhiteSpace(s[i])
  }

  /** string.IsNullOrWhiteSpace. */
  predicate IsNullOrWhiteSpace(s: Option<string>)
  {
    s.None? || AllWhiteSpace(s.value)
  }

  /** Trimmed on both ends: empty, or starting and ending with a non-white-space character. */
  predicate IsTrimmed(s: string)
  {
    s == [] || (!IsWhiteSpace(s[0]) && !IsWhiteSpace(s[|s| - 1]))
  }

  function TrimStart(s: string): (r: string)
    ensures |r| <= |s| && r == s[|s| - |r|..]
    ensures AllWhiteSpace(s[..|s| - |r|])
    ensures r == [] || !IsWhiteSpace(r[0])
  {
    if s == [] || !IsWhiteSpace(s[0]) then s
    else
      var r := TrimStart(s[1..]);
      assert s[..|s| - |r|] == [s[0]] + s[1..][..|s| - 1 - |r|];
      r
  }

  function TrimEnd(s: string): (r: string)
    ensures |r| <= |s| && r == s[..|r|]
    ensures AllWhiteSpace(s[|r|..])
    ensures r == [] || !IsWhiteSpace(r[|r| - 1])
  {
    if s == [] || !IsWhiteSpace(s[|s| - 1]) then s
    else
      var r := TrimEnd(s[..|s| - 1]);
      assert s[|r|..] == s[..|s| - 1][|r|..] + [s[|s| - 1]];
      r
  }

  /** string.Trim(): the white space at both ends removed. */
  function Trim(s: string): (r: string)
    ensures IsTrimmed(r) && |r| <= |s|
  {
    var t := TrimStart(s);
    var r := TrimEnd(t);
    assert IsTrimmed(r) by {
      if r != [] {
        assert r[0] == t[0];
      }
    }
    r
  }

  /** Trim cuts only white space, and only at the two ends. */
  lemma TrimCut(s: string) returns (a: nat, b: nat)
    ensures a <= b <= |s| && Trim(s) == s[a..b]
    ensures AllWhiteSpace(s[..a]) && AllWhiteSpace(s[b..])
  {
    var t := TrimStart(s);
    var r := TrimEnd(t);
    a := |s| - |t|;
    b := a + |r|;
    assert r == s[a..b];
    assert s[b..] == t[|r|..];
  }

  /** Trim adds no character: a separator absent from s is absent from Trim(s). */
  lemma TrimKeepsOut(s: string, c: char)
    requires c !in s
    ensures c !in Trim(s)
  {
    var a, b := TrimCut(s);
    assert forall k :: 0 <= k < b - a ==> Trim(s)[k] == s[a + k];
  }

  /** Trimming what is already trimmed changes nothing. */
  lemma TrimTrimmed(s: string)
    requires IsTrimmed(s)
    ensures Trim(s) == s
  {
  }

  /** Trim is a projection: trimming twice is trimming once. */
  lemma TrimIdempotent(s: string)
    ensures Trim(Trim(s)) == Trim(s)
  {
    TrimTrimmed(Trim(s));
  }

  /** A string trims to nothing exactly when it is all white space. */
  lemma {:induction false} TrimEmpty(s: string)
    ensures Trim(s) == [] <==> AllWhiteSpace(s)
  {
    var t := TrimStart(s);
    if t != [] {
      assert !IsWhiteSpace(s[|s| - |t|]);
    }
  }

  /** String.Split(sep) with no options: the pieces between separators,
      empty pieces included; there is always at least one piece. */
  function Split(s: string, sep: char): (r: seq<string>)
    ensures |r| >= 1
    ensures forall i :: 0 <= i < |r| ==> sep !in r[i]
  {
    if s == [] then [""]
    else
      var rest := Split(s[1..], sep);
      if s[0] == sep then [""] + rest else [[s[0]] + rest[0]] + rest[1..]
  }

  /** string.Join(sep, parts). */
  function Join(parts: seq<string>, sep: char): string
    requires |parts| >= 1
  {
    if |parts| == 1 then parts[0] else parts[0] + [sep] + Join(parts[1..], sep)
  }

  lemma JoinConsHead(x: string, y: string, tail: seq<string>, sep: char)
    ensures Join([x + y] + tail, sep) == x + Join([y] + tail, sep)
  {
    var l := [x + y] + tail;
    if |tail| > 0 {
      assert l[1..] == tail;
      assert ([y] + tail)[1..] == tail;
    }
  }

  /** Splitting loses nothing: joining the pieces back gives the input. */
  lemma {:induction false} SplitJoin(s: string, sep: char)
    ensures Join(Split(s, sep), sep) == s
  {
    if s != [] {
      var rest := Split(s[1..], sep);
      SplitJoin(s[1..], sep);
      if s[0] == sep {
        assert ([""] + rest)[1..] == rest;
      } else {
        JoinConsHead([s[0]], rest[0], rest[1..], sep);
        assert [rest[0]] + rest[1..] == rest;
      }
      assert s == [s[0]] + s[1..];
    }
  }

  /** Joining pieces that hold no separator and splitting again gives the pieces back. */
  lemma {:induction false} JoinSplit(parts: seq<string>, sep: char)
    requires |parts| >= 1
    requires forall i :: 0 <= i < |parts| ==> sep !in parts[i]
    ensures Split(Join(parts, sep), sep) == parts
  {
    if |parts| == 1 {
      SplitNoSep(parts[0], sep);
    } else {
      JoinSplit(parts[1..], sep);
      SplitPrefix(parts[0], Join(parts[1..], sep), sep);
      assert parts == [parts[0]] + parts[1..];
    }
  }

  lemma {:induction false} SplitNoSep(s: string, sep: char)
    requires sep !in s
    ensures Split(s, sep) == [s]
  {
    if s != [] {
      SplitNoSep(s[1..], sep);
      assert s == [s[0]] + s[1..];
    }
  }

  /** Splitting x + sep + y, with no separator in x, gives x followed by the pieces of y. */
  lemma {:induction false} SplitPrefix(x: string, y: string, sep: char)
    requires sep !in x
    ensures Split(x + [sep] + y, sep) == [x] + Split(y, sep)
  {
    var s := x + [sep] + y;
    if x == [] {
      assert s[1..] == y;
    } else {
      assert s[1..] == x[1..] + [sep] + y;
      SplitPrefix(x[1..], y, sep);
      assert [x[0]] + x[1..] == x;
    }
  }

  function TrimAll(parts: seq<string>): (r: seq<string>)
    ensures |r| == |parts|
    ensures forall i :: 0 <= i < |r| ==> r[i] == Trim(parts[i])
  {
    seq(|parts|, i requires 0 <= i < |parts| => Trim(parts[i]))
  }

  function NonEmpty(): string -> bool
  {
    (s: string) => s != []
  }

  /** Split(sep, RemoveEmptyEntries | TrimEntries): every piece trimmed,
      and the pieces that trim to nothing dropped. */
  function SplitTrimmed(s: string, sep: char): seq<string>
  {
    Filter(TrimAll(Split(s, sep)), NonEmpty())
  }

  /** Every piece is non-empty, trimmed and free of the separator. */
  lemma SplitTrimmedClean(s: string, sep: char)
    ensures forall x :: x in SplitTrimmed(s, sep) ==> x != [] && IsTrimmed(x) && sep !in x
  {
    TrimmedPiecesClean(Split(s, sep), sep);
  }

  lemma TrimmedPiecesClean(raw: seq<string>, sep: char)
    requires forall i :: 0 <= i < |raw| ==> sep !in raw[i]
    ensures forall x :: x in Filter(TrimAll(raw), NonEmpty()) ==> x != [] && IsTrimmed(x) && sep !in x
  {
    var pieces := TrimAll(raw);
    FilterMembers(pieces, NonEmpty());
    forall x | x in Filter(pieces, NonEmpty()) ensures x != [] && IsTrimmed(x) && sep !in x {
      var i :| 0 <= i < |pieces| && pieces[i] == x;
      TrimKeepsOut(raw[i], sep);
    }
  }

  /** A name appears among the pieces exactly when some raw piece trims to it. */
  lemma {:induction false} SplitTrimmedMembers(s: string, sep: char, name: string)
    ensures name in SplitTrimmed(s, sep) <==>
      name != [] && exists i :: 0 <= i < |Split(s, sep)| && Trim(Split(s, sep)[i]) == name
  {
    SplitPiecesMembers(s, sep, name);
  }

  lemma {:induction false} SplitPiecesMembers(s: string, sep: char, name: string)
    ensures name in Filter(TrimAll(Split(s, sep)), NonEmpty()) <==>
      name != [] && exists i :: 0 <= i < |Split(s, sep)| && Trim(Split(s, sep)[i]) == name
  {
    TrimmedPiecesMembers(Split(s, sep), name);
  }

  lemma {:induction false} TrimmedPiecesMembers(raw: seq<string>, name: string)
    ensures name in Filter(TrimAll(raw), NonEmpty()) <==> name != [] && exists i :: 0 <= i < |raw| && Trim(raw[i]) == name
  {
    FilterMembers(TrimAll(raw), NonEmpty());
  }
}
