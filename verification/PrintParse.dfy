// What one side prints, the other side parses.
module PrintParse {
  import opened Common
  import opened Digits
  import opened Serials
  import opened StreamParser
  import opened Arithmetic

  /** What may stand in front of a number, in each mode. */
  predicate IsLead(prefix: seq<byte>, mode: LookaheadMode)
  {
    match mode
    case SKIP_ALL => forall i :: 0 <= i < |prefix| ==> !(48 <= prefix[i] <= 57) && prefix[i] != 45
    case SKIP_WHITESPACE => forall i :: 0 <= i < |prefix| ==> prefix[i] == 32 || prefix[i] == 9 || prefix[i] == 13 || prefix[i] == 10
    case SKIP_NONE => prefix == []
  }

  /** What may stand behind it: neither a digit nor the ignored character. */
  predicate IsEnd(suffix: seq<byte>, ignore: byte)
  {
    suffix != [] ==> !(48 <= suffix[0] <= 57) && suffix[0] != ignore
  }

  /** `digits` with any number of ignored characters between and behind them. */
  ghost predicate Spaced(body: seq<byte>, digits: seq<byte>, ignore: byte)
  {
    if body == [] then digits == []
    else
      var c := body[|body| - 1];
      if c == ignore then Spaced(body[..|body| - 1], digits, ignore)
      else 48 <= c <= 57 && digits != [] && digits[|digits| - 1] == c && Spaced(body[..|body| - 1], digits[..|digits| - 1], ignore)
  }

  lemma {:induction false} SpacedContinues(body: seq<byte>, digits: seq<byte>, ignore: byte)
    requires Spaced(body, digits, ignore)
    ensures forall i :: 0 <= i < |body| ==> Continues(body[i], ignore)
    ensures Significant(body, ignore) == digits
    decreases |body|
  {
    if body != [] {
      var front, c := body[..|body| - 1], body[|body| - 1];
      if c == ignore {
        SpacedContinues(front, digits, ignore);
      } else {
        SpacedContinues(front, digits[..|digits| - 1], ignore);
        assert digits == digits[..|digits| - 1] + [c];
      }
    }
  }

  /** Digits without anything between them. */
  lemma {:induction false} DigitsAreSpaced(digits: seq<byte>, ignore: byte)
    requires !(48 <= ignore <= 57) && forall i :: 0 <= i < |digits| ==> 48 <= digits[i] <= 57
    ensures Spaced(digits, digits, ignore)
  {
    if digits != [] {
      DigitsAreSpaced(digits[..|digits| - 1], ignore);
    }
  }

  lemma {:induction false} SignIsNotSignificant(s: seq<byte>, ignore: byte)
    ensures Significant([MINUS] + s, ignore) == Significant(s, ignore)
  {
    if s == [] {
      assert Significant([MINUS], ignore) == Significant([], ignore) + [];
      assert [MINUS] + s == [MINUS];
    } else {
      SignIsNotSignificant(s[..|s| - 1], ignore);
      assert ([MINUS] + s)[..|s|] == [MINUS] + s[..|s| - 1];
    }
  }

  /** A number starts at `t`, and this is its value and its length. */
  lemma TokenIs(negative: bool, body: seq<byte>, digits: seq<byte>, suffix: seq<byte>, ignore: byte)
    requires IsEnd(suffix, ignore) && Spaced(body, digits, ignore) && (negative || (body != [] && 48 <= body[0] <= 57))
    ensures var token := if negative then [45] + body else body;
            var t := token + suffix;
            && Begins(t) && 1 + Run(t[1..], ignore) == |token|
            && TokenValue(t, ignore) == if negative && ignore != 45 then -(Value(digits, 10) as int) else Value(digits, 10)
  {
    hide Value, Run, Significant, Spaced;
    SpacedContinues(body, digits, ignore);
    SignIsNotSignificant(body, ignore);
    var token: seq<byte> := if negative then [45] + body else body;
    var t := token + suffix;
    assert token[1..] == if negative then body else body[1..];
    RunIs(token[1..], suffix, ignore);
    assert t[1..] == token[1..] + suffix;
    assert t[..|token|] == token;
  }

  /**
   * Whatever the mode skips, a sign perhaps, and digits with ignored characters among them: the parser reads the number
   * that the digits alone stand for, truncated to a `long`, and leaves what follows. Digits and the sign can be ignored
   * too.
   */
  lemma ParsesDigits(prefix: seq<byte>, negative: bool, body: seq<byte>, digits: seq<byte>, suffix: seq<byte>, mode: LookaheadMode, ignore: byte)
    requires IsLead(prefix, mode) && IsEnd(suffix, ignore)
    requires Spaced(body, digits, ignore) && (negative || (body != [] && 48 <= body[0] <= 57))
    ensures var v: int := Value(digits, 10);
            Parsed(prefix + (if negative then [45] + body else body) + suffix, mode, ignore) == (S32(if negative && ignore != 45 then -v else v), suffix)
  {
    hide TokenValue, Run, Lead, Value, S32, Spaced;
    var token: seq<byte> := if negative then [45] + body else body;
    var t := token + suffix;
    TokenIs(negative, body, digits, suffix, ignore);
    forall i | 0 <= i < |prefix|
      ensures !Stops(prefix[i], false) && Skippable(mode, prefix[i])
    {
      SkippedBytes(mode, prefix[i], false);
    }
    StartsWithStop(t);
    hide Stops, Skippable, IsLead;
    LeadIs(prefix, t, mode, false);
    assert prefix + token + suffix == prefix + t;
    assert (prefix + t)[|prefix|..] == t;
    assert t[|token|..] == suffix;
  }

  /** Without a number behind what the mode skips, the parser returns 0 and leaves the rest. */
  lemma ParsesNothing(prefix: seq<byte>, suffix: seq<byte>, mode: LookaheadMode, ignore: byte)
    requires IsLead(prefix, mode)
    requires suffix != [] ==> mode != SKIP_ALL && !(48 <= suffix[0] <= 57) && suffix[0] != 45
                              && (mode == SKIP_WHITESPACE ==> suffix[0] != 32 && suffix[0] != 9 && suffix[0] != 13 && suffix[0] != 10)
    ensures Parsed(prefix + suffix, mode, ignore) == (0, suffix)
  {
    hide TokenValue, Run, Lead, S32;
    forall i | 0 <= i < |prefix|
      ensures !Stops(prefix[i], false) && Skippable(mode, prefix[i])
    {
      SkippedBytes(mode, prefix[i], false);
    }
    if suffix != [] {
      SkippedBytes(mode, suffix[0], false);
    }
    LeadIs(prefix, suffix, mode, false);
    assert (prefix + suffix)[|prefix|..] == suffix;
  }

  /** A printed number: a minus sign, perhaps, and the digits of its magnitude. */
  lemma TextShape(v: int)
    ensures var digits := Numeral(if v < 0 then -v else v, 10, UPPER);
            && Text(v, 10) == (if v < 0 then [45] + digits else digits)
            && Value(digits, 10) == (if v < 0 then -v else v)
            && forall i :: 0 <= i < |digits| ==> 48 <= digits[i] <= 57
  {
    hide Numeral, Value;
    var n := if v < 0 then -v else v;
    DecimalDigits(n);
    NumeralValue(n, 10, UPPER);
  }

  /**
   * Printing any `long` in decimal and parsing it again gives the number back and leaves what follows. In front of it
   * stands what the mode skips: any text without a digit or a minus sign, or white space, or nothing. Behind it stands
   * neither a digit nor the ignored character.
   */
  lemma RoundTrip(v: int, prefix: seq<byte>, suffix: seq<byte>, mode: LookaheadMode, ignore: byte)
    requires -0x8000_0000 <= v < 0x8000_0000
    requires !(48 <= ignore <= 57) && ignore != 45
    requires match mode
             case SKIP_ALL => forall i :: 0 <= i < |prefix| ==> !(48 <= prefix[i] <= 57) && prefix[i] != 45
             case SKIP_WHITESPACE => forall i :: 0 <= i < |prefix| ==> prefix[i] == 32 || prefix[i] == 9 || prefix[i] == 13 || prefix[i] == 10
             case SKIP_NONE => prefix == []
    requires suffix != [] ==> !(48 <= suffix[0] <= 57) && suffix[0] != ignore
    ensures Parsed(prefix + Text(v, 10) + suffix, mode, ignore) == (v, suffix)
  {
    hide Text, Numeral, Parsed, Value, Spaced;
    var digits := Numeral(if v < 0 then -v else v, 10, UPPER);
    TextShape(v);
    DigitsAreSpaced(digits, ignore);
    ParsesDigits(prefix, v < 0, digits, digits, suffix, mode, ignore);
  }

  /** The same through the two objects: what the one wrote, and what the other made of it. */
  method Echo(v: int, prefix: seq<byte>, suffix: seq<byte>, mode: LookaheadMode, ignore: byte)
    returns (text: seq<byte>, value: int, rest: seq<byte>)
    requires -0x8000_0000 <= v < 0x8000_0000
    requires !(48 <= ignore <= 57) && ignore != 45 && IsLead(prefix, mode) && IsEnd(suffix, ignore)
    ensures text == Text(v, 10) && (value, rest) == Parsed(prefix + text + suffix, mode, ignore)
    ensures value == v && rest == suffix
  {
    hide Text, Parsed;
    var serial := new Serial();
    var _ := serial.PrintLong(v, 10);
    text := serial.output;
    assert text == Text(v, 10);
    var stream := new Stream(prefix + text + suffix);
    value := stream.ParseInt(mode, ignore);
    rest := stream.input;
    RoundTrip(v, prefix, suffix, mode, ignore);
  }

  lemma StartsWithStop(t: seq<byte>)
    requires Begins(t)
    ensures Stops(t[0], false)
  {
  }

  /** The parser computes `value * 10 + c - '0'` from left to right; whether all of it fits a `long`. */
  ghost predicate NeverOverflows(s: seq<byte>)
  {
    forall k :: 0 <= k < |s| ==> Value(s[..k], 10) * 10 + s[k] < 0x8000_0000
  }

  /** What the parser computes at digit `k` is at most 48 above the number itself, and exactly that at the last digit. */
  lemma Intermediate(s: seq<byte>, k: nat)
    requires k < |s| && IsDigit(s[k])
    ensures Value(s[..k], 10) * 10 + s[k] <= Value(s, 10) + 48
    ensures k == |s| - 1 ==> Value(s[..k], 10) * 10 + s[k] == Value(s, 10) + 48
  {
    hide Value;
    FrontValue(s, k + 1);
    LastDigit(s[..k], s[k], 10);
    DigitOf(s[k]);
    assert s[..k + 1] == s[..k] + [s[k]];
    assert s[..|s|] == s;
  }

  /** Without relying on wrap-around, only numerals up to 2147483599 can be parsed. */
  lemma OverflowFreeIff(n: nat)
    ensures NeverOverflows(Numeral(n, 10, UPPER)) <==> n + 48 < 0x8000_0000
  {
    hide Numeral, Value;
    DecimalDigits(n);
    NumeralValue(n, 10, UPPER);
    OverflowFree(Numeral(n, 10, UPPER));
  }

  lemma OverflowFree(s: seq<byte>)
    requires s != [] && forall i :: 0 <= i < |s| ==> IsDigit(s[i])
    ensures NeverOverflows(s) <==> Value(s, 10) + 48 < 0x8000_0000
  {
    hide Value;
    forall k | 0 <= k < |s|
      ensures Value(s[..k], 10) * 10 + s[k] <= Value(s, 10) + 48
    {
      Intermediate(s, k);
    }
    Intermediate(s, |s| - 1);
  }

  lemma DigitOf(c: byte)
    requires IsDigit(c)
    ensures DigitValue(c) == c - 48
  {
  }
}
