// Reading integers from a stream, arduino/cores/stream.cpp.
module StreamParser {
  import opened Common
  import opened Digits
  import opened Serials
  import opened Arithmetic

  datatype LookaheadMode = SKIP_ALL | SKIP_NONE | SKIP_WHITESPACE

  predicate IsDigit(c: byte)
  {
    48 <= c < 58
  }

  /** Where looking for a number stops. */
  predicate Stops(c: byte, detectDecimal: bool)
  {
    c == MINUS || IsDigit(c) || (detectDecimal && c == 46)
  }

  /** What may be discarded on the way there. */
  predicate Skippable(mode: LookaheadMode, c: byte)
  {
    mode == SKIP_ALL || (mode == SKIP_WHITESPACE && (c == 32 || c == 9 || c == 13 || c == 10))
  }

  /** Whether a number goes on with `c`. */
  predicate Continues(c: byte, ignore: byte)
  {
    IsDigit(c) || c == ignore
  }

  /** The number of bytes of `s` discarded in front of a number. */
  function Lead(s: seq<byte>, mode: LookaheadMode, detectDecimal: bool): (n: nat)
    ensures n <= |s|
  {
    if s == [] || Stops(s[0], detectDecimal) || !Skippable(mode, s[0]) then 0 else 1 + Lead(s[1..], mode, detectDecimal)
  }

  /** The length of the longest part of `s` with which a number goes on. */
  function Run(s: seq<byte>, ignore: byte): (n: nat)
    ensures n <= |s|
  {
    if s == [] || !Continues(s[0], ignore) then 0 else 1 + Run(s[1..], ignore)
  }

  /** The digits of `s` that are not ignored. */
  function Significant(s: seq<byte>, ignore: byte): seq<byte>
  {
    if s == [] then []
    else Significant(s[..|s| - 1], ignore) + (if IsDigit(s[|s| - 1]) && s[|s| - 1] != ignore then [s[|s| - 1]] else [])
  }

  /** Whether `s` starts with a number, or with the sign of one. */
  predicate Begins(s: seq<byte>)
  {
    s != [] && Stops(s[0], false)
  }

  /** The value of the number that `s` starts with. */
  function TokenValue(s: seq<byte>, ignore: byte): int
    requires Begins(s)
  {
    var v: int := Value(Significant(s[..1 + Run(s[1..], ignore)], ignore), 10);
    if s[0] == MINUS && ignore != MINUS then -v else v
  }

  /** What parsing `s` returns, and what is left of `s` then. */
  function Parsed(s: seq<byte>, mode: LookaheadMode, ignore: byte): (int, seq<byte>)
  {
    var t := s[Lead(s, mode, false)..];
    if Begins(t) then (S32(TokenValue(t, ignore)), t[1 + Run(t[1..], ignore)..]) else (0, t)
  }

  /** The bytes that each mode discards, in numbers: anything but a digit, a minus sign and perhaps a point; or white space; or none. */
  lemma SkippedBytes(mode: LookaheadMode, c: byte, detectDecimal: bool)
    ensures Stops(c, detectDecimal) <==> 48 <= c <= 57 || c == 45 || (detectDecimal && c == 46)
    ensures !Stops(c, detectDecimal) && Skippable(mode, c) <==>
              match mode
              case SKIP_ALL => !(48 <= c <= 57) && c != 45 && (detectDecimal ==> c != 46)
              case SKIP_WHITESPACE => c == 32 || c == 9 || c == 13 || c == 10
              case SKIP_NONE => false
  {
  }

  /** What a mode discards before a number: it stops at the first byte that the mode does not skip, or at the end. */
  lemma {:induction false} LeadMeaning(s: seq<byte>, mode: LookaheadMode, detectDecimal: bool)
    ensures var n := Lead(s, mode, detectDecimal);
            match mode
            case SKIP_ALL =>
              && (forall i :: 0 <= i < n ==> !(48 <= s[i] <= 57) && s[i] != 45 && (detectDecimal ==> s[i] != 46))
              && (n < |s| ==> 48 <= s[n] <= 57 || s[n] == 45 || (detectDecimal && s[n] == 46))
            case SKIP_WHITESPACE =>
              && (forall i :: 0 <= i < n ==> s[i] == 32 || s[i] == 9 || s[i] == 13 || s[i] == 10)
              && (n < |s| ==> s[n] != 32 && s[n] != 9 && s[n] != 13 && s[n] != 10)
            case SKIP_NONE => n == 0
  {
    if s != [] {
      SkippedBytes(mode, s[0], detectDecimal);
      hide Stops, Skippable;
      if !Stops(s[0], detectDecimal) && Skippable(mode, s[0]) {
        LeadMeaning(s[1..], mode, detectDecimal);
        assert forall i :: 0 < i < |s| ==> s[i] == s[1..][i - 1];
      }
    }
  }

  lemma {:induction false} LeadIs(s: seq<byte>, t: seq<byte>, mode: LookaheadMode, detectDecimal: bool)
    requires forall i :: 0 <= i < |s| ==> !Stops(s[i], detectDecimal) && Skippable(mode, s[i])
    requires t != [] ==> Stops(t[0], detectDecimal) || !Skippable(mode, t[0])
    ensures Lead(s + t, mode, detectDecimal) == |s|
  {
    hide Stops, Skippable;
    if s != [] {
      LeadIs(s[1..], t, mode, detectDecimal);
      assert (s + t)[1..] == s[1..] + t;
    } else {
      assert s + t == t;
    }
  }

  lemma {:induction false} RunIs(s: seq<byte>, t: seq<byte>, ignore: byte)
    requires forall i :: 0 <= i < |s| ==> Continues(s[i], ignore)
    requires t != [] ==> !Continues(t[0], ignore)
    ensures Run(s + t, ignore) == |s|
  {
    hide Continues;
    if s != [] {
      RunIs(s[1..], t, ignore);
      assert (s + t)[1..] == s[1..] + t;
    } else {
      assert s + t == t;
    }
  }

  /** Adding a digit to a truncated value. */
  lemma TruncatedDigit(a: int, d: int)
    ensures S32(S32(a) * 10 + d) == S32(a * 10 + d)
  {
    var k := (a + 0x8000_0000) / 0x1_0000_0000;
    assert S32(a) == a - k * 0x1_0000_0000;
    ShiftedByPeriods(a * 10 + d, -10 * k);
  }

  lemma ShiftedByPeriods(x: int, k: int)
    ensures S32(x + k * 0x1_0000_0000) == S32(x)
  {
    var y := x + 0x8000_0000;
    var q, r := y / 0x1_0000_0000, y % 0x1_0000_0000;
    assert y + k * 0x1_0000_0000 == (q + k) * 0x1_0000_0000 + r;
  }

  lemma NegatedTruncation(a: int)
    ensures S32(-S32(a)) == S32(-a)
  {
    var k := (a + 0x8000_0000) / 0x1_0000_0000;
    assert S32(a) == a - k * 0x1_0000_0000;
    ShiftedByPeriods(-a, k);
  }

  /** The stream; `input` is what arrives before a timeout. */
  class Stream {
    var input: seq<byte>

    constructor (input: seq<byte>)
      ensures this.input == input
    {
      this.input := input;
    }

    method TimedPeek() returns (c: int)
      ensures c == if input == [] then -1 else input[0]
    {
      c := if input == [] then -1 else input[0];
    }

    method Read() returns (c: int)
      modifies this
      ensures c == if old(input) == [] then -1 else old(input)[0]
      ensures input == if old(input) == [] then [] else old(input)[1..]
    {
      if input == [] {
        return -1;
      }
      c := input[0];
      input := input[1..];
    }

    method PeekNextDigit(mode: LookaheadMode, detectDecimal: bool) returns (c: int)
      modifies this
      ensures input == old(input)[Lead(old(input), mode, detectDecimal)..]
      ensures c == if input != [] && Stops(input[0], detectDecimal) then input[0] else -1
    {
      assert input == input[0..];
      while true
        invariant |input| + Lead(old(input), mode, detectDecimal) == |old(input)| + Lead(input, mode, detectDecimal)
        invariant exists k :: 0 <= k <= |old(input)| && input == old(input)[k..]
        decreases |input|
      {
        c := TimedPeek();
        if c < 0 || c == MINUS || (48 <= c < 58) || (detectDecimal && c == 46) {
          return;
        }
        match mode {
          case SKIP_NONE => return -1;
          case SKIP_WHITESPACE =>
            if c != 32 && c != 9 && c != 13 && c != 10 {
              return -1;
            }
          case SKIP_ALL =>
        }
        var _ := Read();
      }
    }

    /**
     * Sign, digits and ignored characters, with the arithmetic of a 32-bit `long`: the result is the number read,
     * truncated.
     */
    method ParseInt(mode: LookaheadMode, ignore: byte) returns (value: int)
      modifies this
      ensures (value, input) == Parsed(old(input), mode, ignore)
    {
      hide Lead, Value, S32;
      var isNegative := false;
      value := 0;
      var c := PeekNextDigit(mode, false);
      if c < 0 {
        return 0;
      }
      ghost var start := input;
      isNegative, value := ReadDigits(ignore);
      ghost var k := 1 + Run(start[1..], ignore);
      if isNegative {
        NegatedTruncation(Value(Significant(start[..k], ignore), 10));
        value := S32(-value);
      }
    }

    /** Consumes what `ParseInt` has found, and reports the sign and the digits. */
    method ReadDigits(ignore: byte) returns (isNegative: bool, value: int)
      requires Begins(input)
      modifies this
      ensures input == old(input)[1 + Run(old(input)[1..], ignore)..]
      ensures isNegative == (old(input)[0] == MINUS && ignore != MINUS)
      ensures value == S32(Value(Significant(old(input)[..1 + Run(old(input)[1..], ignore)], ignore), 10))
    {
      hide Value, S32, Run, Significant;
      ghost var start := input;
      ghost var k := 0;
      isNegative, value := false, 0;
      var c := TimedPeek();
      NoDigits();
      SignificantStep(start, 0, ignore);
      assert start[0] == c;
      assert start[..0] == [] && start[0..] == start;
      while true
        invariant k < |start| && input == start[k..] && c == start[k]
        invariant 0 < k ==> Continues(start[k], ignore)
        invariant 0 < k ==> k + Run(start[k..], ignore) == 1 + Run(start[1..], ignore)
        invariant value == S32(Value(Significant(start[..k], ignore), 10))
        invariant isNegative == (0 < k && start[0] == MINUS && ignore != MINUS)
        decreases |input|
      {
        SignificantStep(start, k, ignore);
        if c == ignore {
        } else if c == MINUS {
          isNegative := true;
        } else if 48 <= c < 58 {
          OneMoreDigit(Significant(start[..k], ignore), c);
          value := S32(value * 10 + c - 48);
        }
        var _ := Read();
        RunStep(start, k, ignore);
        k := k + 1;
        c := TimedPeek();
        if !(48 <= c < 58 || c == ignore) {
          NoRun(input, ignore);
          break;
        }
      }
    }
  }

  lemma SignificantStep(s: seq<byte>, k: nat, ignore: byte)
    requires k < |s|
    ensures Significant(s[..0], ignore) == []
    ensures Significant(s[..k + 1], ignore)
         == if IsDigit(s[k]) && s[k] != ignore then Significant(s[..k], ignore) + [s[k]] else Significant(s[..k], ignore)
  {
    assert s[..k + 1][..k] == s[..k];
  }

  lemma RunStep(s: seq<byte>, k: nat, ignore: byte)
    requires k < |s|
    ensures Continues(s[k], ignore) ==> Run(s[k..], ignore) == 1 + Run(s[k + 1..], ignore)
  {
    assert s[k..][1..] == s[k + 1..];
  }

  lemma NoRun(s: seq<byte>, ignore: byte)
    requires s != [] ==> !Continues(s[0], ignore)
    ensures Run(s, ignore) == 0
  {
  }

  lemma NoDigits()
    ensures Value([], 10) == 0 && S32(0) == 0
  {
  }

  lemma OneMoreDigit(s: seq<byte>, c: byte)
    requires IsDigit(c)
    ensures S32(S32(Value(s, 10)) * 10 + c - 48) == S32(Value(s + [c], 10))
  {
    hide S32;
    LastDigit(s, c, 10);
    TruncatedDigit(Value(s, 10), c - 48);
  }
}
