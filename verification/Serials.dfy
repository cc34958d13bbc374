// Printing integers, arduino/cores/serial.cpp and the integer case of arduino/cores/String.cpp.
module Serials {
  import opened Common
  import opened Digits
  import opened Arithmetic

  const MINUS: byte := 45

  /** The bytes in front of the first zero. */
  function CString(s: seq<byte>): seq<byte>
  {
    if s == [] || s[0] == 0 then [] else [s[0]] + CString(s[1..])
  }

  lemma {:induction false} CStringIsAll(s: seq<byte>, t: seq<byte>)
    requires (forall i :: 0 <= i < |s| ==> s[i] != 0)
    ensures CString(s + [0] + t) == s
  {
    if s != [] {
      CStringIsAll(s[1..], t);
      assert (s + [0] + t)[1..] == s[1..] + [0] + t;
    }
  }

  function Base(format: int): (b: int)
    ensures 2 <= b
  {
    if format < 2 then 10 else format
  }

  /** What printing `v` writes: a negative number is always decimal. */
  function Text(v: int, format: int): seq<byte>
  {
    if v < 0 then [MINUS] + Numeral(-v, 10, UPPER) else Numeral(v, Base(format), UPPER)
  }

  class Serial {
    var output: seq<byte>

    constructor ()
      ensures output == []
    {
      output := [];
    }

    /** Writes the string at `s[from..]`, up to its zero byte. */
    method WriteString(s: array<byte>, from: nat) returns (n: nat)
      requires from <= s.Length && exists i :: from <= i < s.Length && s[i] == 0
      modifies this
      ensures output == old(output) + CString(s[from..]) && n == |CString(s[from..])|
    {
      hide CString;
      var i := from;
      while s[i] != 0
        invariant from <= i < s.Length && exists j :: i <= j < s.Length && s[j] == 0
        invariant forall j :: from <= j < i ==> s[j] != 0
        decreases s.Length - i
      {
        i := i + 1;
      }
      assert s[from..] == s[from..i] + [0] + s[i + 1..];
      CStringIsAll(s[from..i], s[i + 1..]);
      output := output + s[from..i];
      n := i - from;
    }

    /** A 32-bit number: the digits are put backwards into a buffer of 33 characters and never leave it. */
    method PrintNumber(val: nat, format: int) returns (n: nat)
      requires val < 0x1_0000_0000
      modifies this
      ensures n == |output| - |old(output)|
      ensures output == old(output) + CString(Numeral(val, if format < 2 then 10 else format, UPPER) + [0])
      ensures format <= 36 ==> output == old(output) + Numeral(val, if format < 2 then 10 else format, UPPER)
    {
      hide Numeral, DigitChar, CString;
      var buf := new byte[33];
      var str := 32;
      buf[str] := 0;
      var base := if format < 2 then 10 else format;
      var v: nat := val;
      ghost var all := Numeral(val, base, UPPER);
      NumeralLength32(val, base);
      while true
        invariant |Numeral(v, base, UPPER)| <= str <= 32 && buf[32] == 0
        invariant Numeral(v, base, UPPER) + buf[str..] == all + [0]
        decreases v
        modifies buf
      {
        ghost var written := buf[str..];
        ghost var q, d := NumeralStep(v, base, UPPER);
        var c := DigitChar(v % base, UPPER);
        v := v / base;
        str := str - 1;
        buf[str] := c;
        assert buf[str..] == [c] + written;
        if v == 0 {
          break;
        }
      }
      assert buf[32] == 0;
      NumeralHasNoZero(val, base);
      assert buf[str..] == all + [0] + [];
      n := WriteString(buf, str);
    }

    /** A signed 32-bit number; its magnitude is right even for the least one, whose negation wraps around. */
    method PrintLong(val: int, format: int) returns (n: nat)
      requires -0x8000_0000 <= val < 0x8000_0000
      modifies this
      ensures n == |output| - |old(output)|
      ensures val < 0 || format <= 36 ==> output == old(output) + Text(val, format)
      ensures val < 0 ==> output == old(output) + [45] + Numeral(-val, 10, UPPER)
      ensures 0 <= val && format <= 36 ==> output == old(output) + Numeral(val, if format < 2 then 10 else format, UPPER)
    {
      hide Numeral, CString;
      var v := val;
      if v < 0 {
        output := output + [MINUS];
        v := S32(-v);
        n := PrintNumber(U32(v), 10);
        n := n + 1;
      } else {
        n := PrintNumber(U32(v), format);
      }
    }
  }

  lemma NumeralLength32(v: nat, base: nat)
    requires 2 <= base && v < 0x1_0000_0000
    ensures |Numeral(v, base, UPPER)| <= 32
  {
    assert Pow2(8) == 0x100 && Pow2(16) == 0x1_0000 && Pow2(24) == 0x100_0000 && Pow2(32) == 0x1_0000_0000;
    NumeralLength(v, base, UPPER, 32);
  }

  lemma NumeralHasNoZero(v: nat, base: nat)
    requires 2 <= base
    ensures base <= 36 ==> CString(Numeral(v, base, UPPER) + [0]) == Numeral(v, base, UPPER)
  {
    hide Numeral, CString;
    if base <= 36 {
      NumeralIsCanonical(v, base, UPPER);
      var s := Numeral(v, base, UPPER);
      CStringIsAll(s, []);
      assert s + [0] + [] == s + [0];
    }
  }

  /**
   * The conversion behind `String(value, base)`: digits are written forwards from the least significant one and
   * then reversed in place. The length returned is `strLen` when there is no room for the final zero.
   */
  method UnsignedIntegerToString(str: array<byte>, strLen: nat, value: nat, base: nat) returns (len: nat)
    requires strLen <= str.Length
    modifies str
    ensures base <= 1 || base > 36 || strLen <= 1 ==> len == 0 && str[..] == old(str[..])
    ensures 1 < base <= 36 && 1 < strLen ==>
              var all := Numeral(value, base, LOWER);
              && len == (if |all| < strLen then |all| else strLen)
              && str[..len] == all[|all| - len..]
              && (len < strLen ==> str[len] == 0)
    ensures forall i :: strLen <= i < str.Length ==> str[i] == old(str[i])
  {
    hide Numeral;
    if base <= 1 || base > 36 || strLen <= 1 {
      return 0;
    }
    ghost var all := Numeral(value, base, LOWER);
    len := WriteBackwards(str, strLen, value, base);
    ReverseInPlace(str, len);
    if len < strLen {
      str[len] := 0;
    }
    assert str[..len] == all[|all| - len..];
  }

  method WriteBackwards(str: array<byte>, strLen: nat, value: nat, base: nat) returns (len: nat)
    requires 1 < strLen <= str.Length && 1 < base <= 36
    modifies str
    ensures var all := Numeral(value, base, LOWER);
            && len == (if |all| < strLen then |all| else strLen)
            && forall i :: 0 <= i < len ==> str[i] == all[|all| - 1 - i]
    ensures forall i :: strLen <= i < str.Length ==> str[i] == old(str[i])
  {
    hide DigitChar, Numeral;
    ghost var all := Numeral(value, base, LOWER);
    len := 0;
    if value == 0 {
      DigitRoundTrip(0, LOWER);
      ghost var q, d := NumeralStep(value, base, LOWER);
      str[0] := 48;
      len := 1;
    } else {
      var v: nat := value;
      while true
        invariant 0 < v && len < strLen
        invariant |all| == len + |Numeral(v, base, LOWER)| && all[..|all| - len] == Numeral(v, base, LOWER)
        invariant forall i :: 0 <= i < len ==> str[i] == all[|all| - 1 - i]
        invariant forall i :: strLen <= i < str.Length ==> str[i] == old(str[i])
        decreases v
      {
        ghost var q, d := NumeralStep(v, base, LOWER);
        assert all[|all| - 1 - len] == DigitChar(d, LOWER);
        str[len] := DigitChar(v % base, LOWER);
        len := len + 1;
        v := v / base;
        if v == 0 || len == strLen {
          break;
        }
      }
    }
  }

  method ReverseInPlace(str: array<byte>, len: nat)
    requires len <= str.Length
    modifies str
    ensures forall i :: 0 <= i < len ==> str[i] == old(str[len - 1 - i])
    ensures forall i :: len <= i < str.Length ==> str[i] == old(str[i])
  {
    for i := 0 to len / 2
      invariant forall j :: 0 <= j < i ==> str[j] == old(str[len - 1 - j]) && str[len - 1 - j] == old(str[j])
      invariant forall j :: i <= j < len - i ==> str[j] == old(str[j])
      invariant forall i :: len <= i < str.Length ==> str[i] == old(str[i])
    {
      str[i], str[len - 1 - i] := str[len - 1 - i], str[i];
    }
  }
}
