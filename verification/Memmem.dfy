// The front ends of arduino/cores/String.cpp that choose a search back end.
module Memmem {
  import opened Common
  import opened Search
  import Kmp
  import TwoWay

  /** `memchr`: the first position of a byte. */
  method FindByte(s: seq<byte>, c: byte) returns (r: Option<nat>)
    ensures IsFirst(s, [c], r)
  {
    for i := 0 to |s|
      invariant forall q :: 0 <= q < i ==> !OccursAt(s, [c], q)
    {
      OccursPointwise(s, [c], i);
      if s[i] == c {
        return Some(i);
      }
    }
    return None;
  }

  /** `__non_standard__memrchr`: the last position of a byte. */
  method FindLastByte(s: seq<byte>, c: byte) returns (r: Option<nat>)
    ensures IsLast(s, [c], r)
  {
    var p := |s| - 1;
    for i := 0 to |s|
      invariant p == |s| - 1 - i
      invariant forall q :: p < q ==> !OccursAt(s, [c], q)
    {
      OccursPointwise(s, [c], p);
      if s[p] == c {
        return Some(p);
      }
      p := p - 1;
    }
    return None;
  }

  /**
   * `__non_standard__memmem`: whichever back end the configuration selects, the leftmost
   * occurrence of a nonempty needle; an empty needle is never found.
   */
  method Memmem(haystack: seq<byte>, needle: seq<byte>, twoWay: bool) returns (r: Option<nat>)
    ensures r == if |needle| == 0 then None else First(haystack, needle)
  {
    if |haystack| < |needle| || |haystack| == 0 || |needle| == 0 {
      return None;
    }
    if |needle| == 1 {
      assert needle == [needle[0]];
      r := FindByte(haystack, needle[0]);
    } else if twoWay {
      r := TwoWay.MemmemTwoWay(haystack, needle);
    } else {
      ghost var fallbacks;
      r, fallbacks := Kmp.MemmemKmp(haystack, needle);
    }
    FirstIsUnique(haystack, needle, r, First(haystack, needle));
  }

  /**
   * `__non_standard__memrmem`. The result is always an occurrence, and an occurrence at the end is always found. It is
   * the rightmost one with the Knuth-Morris-Pratt back end. With the two-way back end it is the first one on the chain
   * of positions that TwoWay describes, which is the rightmost in every haystack exactly for the needles that repeat one
   * byte, because every other needle is missed when it is followed by a single further byte.
   */
  method Memrmem(haystack: seq<byte>, needle: seq<byte>, twoWay: bool) returns (r: Option<nat>)
    ensures |needle| == 0 ==> r == None
    ensures r.Some? ==> OccursAt(haystack, needle, r.value)
    ensures 0 < |needle| && OccursAt(haystack, needle, |haystack| - |needle|) ==> r == Some(|haystack| - |needle|)
    ensures twoWay && 2 <= |needle| <= |haystack| ==>
              forall cut: nat :: TwoWay.IsCut(needle, cut) ==> r == TwoWay.Backward(haystack, needle, cut, |haystack| - |needle|)
    ensures 0 < |needle| && (!twoWay || TwoWay.OneByte(needle)) ==> IsLast(haystack, needle, r)
    ensures twoWay && !TwoWay.OneByte(needle) && |haystack| == |needle| + 1 && OccursAt(haystack, needle, 0) ==> r == None
  {
    if |haystack| < |needle| || |haystack| == 0 || |needle| == 0 {
      return None;
    }
    if |needle| == 1 {
      assert needle == [needle[0]];
      r := FindLastByte(haystack, needle[0]);
    } else if twoWay {
      r := TwoWay.MemrmemTwoWay(haystack, needle);
    } else {
      ghost var fallbacks;
      r, fallbacks := Kmp.MemrmemKmp(haystack, needle);
    }
  }
}
