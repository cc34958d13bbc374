// Trimming every line of a string in its buffer, arduino/cores/String.cpp.
module Trim {
  import opened Common

  /** `isspace` in the C locale. */
  predicate IsSpace(c: byte)
  {
    c == 32 || 9 <= c <= 13
  }

  predicate IsBreak(c: byte)
  {
    c == 13 || c == 10
  }

  /** Whether line `s` starts, or ends, with something else than white space. */
  predicate Flush(s: seq<byte>)
  {
    s == [] || (!IsSpace(s[0]) && !IsSpace(s[|s| - 1]))
  }

  function StripLeft(s: seq<byte>): (r: seq<byte>)
    ensures |r| <= |s|
  {
    if s == [] || !IsSpace(s[0]) then s else StripLeft(s[1..])
  }

  function StripRight(s: seq<byte>): (r: seq<byte>)
    ensures |r| <= |s|
  {
    if s == [] || !IsSpace(s[|s| - 1]) then s else StripRight(s[..|s| - 1])
  }

  function Strip(s: seq<byte>): (r: seq<byte>)
    ensures |r| <= |s|
  {
    StripRight(StripLeft(s))
  }

  /** The length of the first line of `s`. */
  function LineLength(s: seq<byte>): (n: nat)
    ensures n <= |s| && (n < |s| ==> IsBreak(s[n])) && forall i :: 0 <= i < n ==> !IsBreak(s[i])
  {
    if s == [] || IsBreak(s[0]) then 0 else 1 + LineLength(s[1..])
  }

  /** Every line stripped, every line break kept. */
  function Trimmed(s: seq<byte>): (r: seq<byte>)
    ensures |r| <= |s|
    decreases |s|
  {
    if s == [] then []
    else
      var n := LineLength(s);
      if n == |s| then Strip(s) else Strip(s[..n]) + [s[n]] + Trimmed(s[n + 1..])
  }

  // ----- What stripping and trimming keep

  /** `Strip` removes white space only, from both ends only, and all of it. */
  lemma {:induction false} StripMeaning(s: seq<byte>) returns (a: nat, b: nat)
    ensures a <= b <= |s| && Strip(s) == s[a..b] && Flush(Strip(s))
    ensures forall i :: 0 <= i < a || b <= i < |s| ==> IsSpace(s[i])
    ensures forall i :: 0 <= i < a || b <= i < |s| ==> s[i] in {9, 10, 11, 12, 13, 32}
    ensures a < b ==> s[a] !in {9, 10, 11, 12, 13, 32} && s[b - 1] !in {9, 10, 11, 12, 13, 32}
  {
    hide IsSpace;
    a := LeftMeaning(s);
    var n := RightMeaning(StripLeft(s));
    b := a + n;
    assert forall i :: b <= i < |s| ==> s[i] == StripLeft(s)[i - a];
    forall i | 0 <= i < |s|
      ensures IsSpace(s[i]) <==> s[i] in {9, 10, 11, 12, 13, 32}
    {
      SpaceBytes(s[i]);
    }
  }

  /** Tab, line feed, vertical tab, form feed, carriage return and space; of these two break lines. */
  lemma SpaceBytes(c: byte)
    ensures IsSpace(c) <==> c in {9, 10, 11, 12, 13, 32}
    ensures IsBreak(c) <==> c in {10, 13}
  {
  }

  lemma {:induction false} LeftMeaning(s: seq<byte>) returns (a: nat)
    ensures a <= |s| && StripLeft(s) == s[a..] && (a < |s| ==> !IsSpace(s[a]))
    ensures forall i :: 0 <= i < a ==> IsSpace(s[i])
  {
    hide IsSpace;
    if s == [] || !IsSpace(s[0]) {
      a := 0;
    } else {
      a := LeftMeaning(s[1..]);
      a := a + 1;
      assert forall i :: 0 < i < a ==> s[i] == s[1..][i - 1];
    }
  }

  lemma {:induction false} RightMeaning(s: seq<byte>) returns (n: nat)
    ensures n <= |s| && StripRight(s) == s[..n] && (0 < n ==> !IsSpace(s[n - 1]))
    ensures forall i :: n <= i < |s| ==> IsSpace(s[i])
  {
    hide IsSpace;
    if s == [] || !IsSpace(s[|s| - 1]) {
      n := |s|;
    } else {
      n := RightMeaning(s[..|s| - 1]);
      assert s[..|s| - 1][..n] == s[..n];
    }
  }

  /** The stripped part of a text is determined by where it starts and ends. */
  lemma StripIs(s: seq<byte>, a: nat, b: nat)
    requires a <= b <= |s| && Flush(s[a..b]) && forall i :: 0 <= i < a || b <= i < |s| ==> IsSpace(s[i])
    ensures Strip(s) == s[a..b]
  {
    hide IsSpace;
    var x := LeftMeaning(s);
    var n := RightMeaning(s[x..]);
    if a < b {
      assert !IsSpace(s[a..b][0]) && !IsSpace(s[a..b][b - a - 1]);
      assert x == a;
      assert s[x..][n - 1] == s[x + n - 1];
      assert s[x..][b - 1 - a] == s[b - 1];
      assert n == b - a;
    } else {
      AllSpace(s);
    }
  }

  lemma {:induction false} AllSpace(s: seq<byte>)
    requires forall i :: 0 <= i < |s| ==> IsSpace(s[i])
    ensures StripLeft(s) == [] && Strip(s) == []
  {
    hide IsSpace;
    if s != [] {
      AllSpace(s[1..]);
    }
  }

  lemma StripOfFlush(s: seq<byte>)
    requires Flush(s)
    ensures Strip(s) == s
  {
    hide IsSpace;
    assert s[0..|s|] == s;
    StripIs(s, 0, |s|);
  }

  lemma {:induction false} LineLengthIs(line: seq<byte>, rest: seq<byte>)
    requires (forall i :: 0 <= i < |line| ==> !IsBreak(line[i])) && (rest == [] || IsBreak(rest[0]))
    ensures LineLength(line + rest) == |line|
  {
    hide IsBreak;
    if line == [] {
      assert line + rest == rest;
    } else {
      LineLengthIs(line[1..], rest);
      assert (line + rest)[1..] == line[1..] + rest;
    }
  }

  /** Trimming twice is trimming once. */
  lemma {:induction false} TrimIsIdempotent(s: seq<byte>)
    ensures Trimmed(Trimmed(s)) == Trimmed(s)
    decreases |s|
  {
    hide IsSpace, IsBreak, Strip, Trimmed;
    if s != [] {
      var n := LineLength(s);
      var line := Strip(s[..n]);
      StripOfLine(s[..n]);
      TrimStep(s);
      if n == |s| {
        LineLengthIs(line, []);
        assert line + [] == line;
        LastLine(line);
      } else {
        TrimIsIdempotent(s[n + 1..]);
        var rest := Trimmed(s[n + 1..]);
        LineLengthIs(line, [s[n]] + rest);
        assert line + [s[n]] + rest == line + ([s[n]] + rest);
        OneLine(line, s[n], rest);
      }
    } else {
      TrimStep(s);
    }
  }

  /** A stripped line is a line, and stripped. */
  lemma StripOfLine(s: seq<byte>)
    requires forall i :: 0 <= i < |s| ==> !IsBreak(s[i])
    ensures Strip(Strip(s)) == Strip(s) && forall i :: 0 <= i < |Strip(s)| ==> !IsBreak(Strip(s)[i])
  {
    hide IsBreak, Strip;
    var a, b := StripMeaning(s);
    StripOfFlush(Strip(s));
    assert forall i :: 0 <= i < |Strip(s)| ==> Strip(s)[i] == s[a + i];
  }

  /** One line of trimming. */
  lemma TrimStep(s: seq<byte>)
    ensures var n := LineLength(s);
            && (n == |s| ==> Trimmed(s) == Strip(s[..n]))
            && (n < |s| ==> Trimmed(s) == Strip(s[..n]) + [s[n]] + Trimmed(s[n + 1..]))
  {
    hide LineLength, Strip, IsSpace, IsBreak;
    if s == [] {
      AllSpace(s);
      assert s[..0] == s;
    } else if LineLength(s) == |s| {
      assert s[..|s|] == s;
    }
  }

  lemma LastLine(line: seq<byte>)
    requires LineLength(line) == |line| && Strip(line) == line
    ensures Trimmed(line) == line
  {
  }

  lemma OneLine(line: seq<byte>, c: byte, rest: seq<byte>)
    requires LineLength(line + [c] + rest) == |line|
    ensures Trimmed(line + [c] + rest) == Strip(line) + [c] + Trimmed(rest)
  {
    hide Strip;
    var s := line + [c] + rest;
    assert s[..|line|] == line && s[|line| + 1..] == rest && s[|line|] == c;
  }

  /** In a trimmed text white space other than a line break has text on both sides within its line. */
  lemma {:induction false} TrimmedLines(s: seq<byte>, i: nat)
    requires i < |Trimmed(s)| && Trimmed(s)[i] in {9, 11, 12, 32}
    ensures 0 < i < |Trimmed(s)| - 1
    ensures Trimmed(s)[i - 1] !in {10, 13} && Trimmed(s)[i + 1] !in {10, 13}
    decreases |s|
  {
    hide IsSpace, IsBreak, Strip, Trimmed, LineLength;
    TrimStep(s);
    var n := LineLength(s);
    var line := Strip(s[..n]);
    StripOfLine(s[..n]);
    SpaceBytes(Trimmed(s)[i]);
    if i < |line| {
      InsideLine(s[..n], i);
    } else if n < |s| {
      SpaceBytes(s[n]);
      var rest := Trimmed(s[n + 1..]);
      assert i != |line|;
      var j := i - |line| - 1;
      assert rest[j] == Trimmed(s)[i];
      TrimmedLines(s[n + 1..], j);
      assert rest[j - 1] == Trimmed(s)[i - 1] && rest[j + 1] == Trimmed(s)[i + 1];
    }
  }

  /** White space in a stripped line is neither its first nor its last byte. */
  lemma InsideLine(s: seq<byte>, i: nat)
    requires i < |Strip(s)| && Strip(s)[i] in {9, 11, 12, 32} && forall k :: 0 <= k < |s| ==> !IsBreak(s[k])
    ensures 0 < i < |Strip(s)| - 1
    ensures Strip(s)[i - 1] !in {10, 13} && Strip(s)[i + 1] !in {10, 13}
  {
    hide IsSpace, IsBreak, Strip;
    var a, b := StripMeaning(s);
    StripOfLine(s);
    SpaceBytes(Strip(s)[i]);
    assert a < b && Strip(s)[0] == s[a] && Strip(s)[|Strip(s)| - 1] == s[b - 1];
    assert 0 < i < |Strip(s)| - 1;
    SpaceBytes(Strip(s)[i - 1]);
    SpaceBytes(Strip(s)[i + 1]);
  }

  /** The bytes that are not white space, and the line breaks. */
  function Kept(s: seq<byte>): seq<byte>
  {
    if s == [] then [] else Kept(s[..|s| - 1]) + (if IsSpace(s[|s| - 1]) && !IsBreak(s[|s| - 1]) then [] else [s[|s| - 1]])
  }

  lemma {:induction false} KeptConcat(s: seq<byte>, t: seq<byte>)
    ensures Kept(s + t) == Kept(s) + Kept(t)
  {
    hide IsSpace, IsBreak;
    if t == [] {
      assert s + t == s;
    } else {
      KeptConcat(s, t[..|t| - 1]);
      assert (s + t)[..|s + t| - 1] == s + t[..|t| - 1];
    }
  }

  lemma {:induction false} NothingKept(s: seq<byte>)
    requires forall i :: 0 <= i < |s| ==> IsSpace(s[i]) && !IsBreak(s[i])
    ensures Kept(s) == []
  {
    hide IsSpace, IsBreak;
    if s != [] {
      NothingKept(s[..|s| - 1]);
    }
  }

  lemma StripKeeps(s: seq<byte>)
    requires forall i :: 0 <= i < |s| ==> !IsBreak(s[i])
    ensures Kept(Strip(s)) == Kept(s)
  {
    hide IsSpace, IsBreak, Kept, Strip, Flush;
    var a, b := StripMeaning(s);
    NothingKept(s[..a]);
    NothingKept(s[b..]);
    KeptConcat(s[..a], s[a..b]);
    KeptConcat(s[..b], s[b..]);
    assert s == s[..b] + s[b..] && s[..b] == s[..a] + s[a..b];
  }

  /** Trimming keeps everything that is not white space, and all line breaks, in order. */
  lemma {:induction false} TrimKeeps(s: seq<byte>)
    ensures Kept(Trimmed(s)) == Kept(s)
    decreases |s|
  {
    hide IsSpace, IsBreak, Kept, Strip, Trimmed, LineLength;
    var n := LineLength(s);
    TrimStep(s);
    StripKeeps(s[..n]);
    if n == |s| {
      assert s[..n] == s;
    } else {
      TrimKeeps(s[n + 1..]);
      KeptConcat(Strip(s[..n]) + [s[n]], Trimmed(s[n + 1..]));
      KeptConcat(Strip(s[..n]), [s[n]]);
      KeptConcat(s[..n] + [s[n]], s[n + 1..]);
      KeptConcat(s[..n], [s[n]]);
      assert s == s[..n] + [s[n]] + s[n + 1..];
    }
  }
}
