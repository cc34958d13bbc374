// The two-way search back end of arduino/cores/String.cpp: the maximal suffix search and
// the forward and backward scans that use its result as a cut.
module TwoWay {
  import opened Common
  import opened Search
  import opened SuffixOrder

  // ----- Maximal suffix

  /** The suffix at `s` falls behind the one at `i` at a difference left of `end`. */
  ghost predicate BehindAt(x: seq<byte>, s: nat, i: nat, end: nat, l: nat, reversed: bool)
  {
    i < s && s + l < end <= |x| && Agree(x, s, i, l) && Below(x[s + l], x[i + l], reversed)
  }

  ghost predicate Behind(x: seq<byte>, s: nat, i: nat, end: nat, reversed: bool)
  {
    exists l: nat :: BehindAt(x, s, i, end, l, reversed)
  }

  /** Every proper suffix of the block `x[i..end)` falls behind the block. */
  ghost predicate Block(x: seq<byte>, i: nat, end: nat, reversed: bool)
  {
    forall s: nat :: i < s < end ==> Behind(x, s, i, end, reversed)
  }

  /**
   * State of the scan: `x[i..end)` repeats with period `p`, its blocks start at `i` and end
   * at `j`, every proper suffix of a block falls behind the block, and every suffix that
   * starts left of `i` is smaller than the candidate `i`.
   */
  ghost predicate Scan(x: seq<byte>, i: nat, j: nat, p: nat, end: nat, reversed: bool)
  {
    && Repeats(x, i, j, p, end)
    && Block(x, i, i + p, reversed)
    && (forall s: nat :: s < i ==> Smaller(x, s, i, reversed))
  }

  /** `x[i..end)` repeats with period `p`; its first block and the block that ends at `j` are the same. */
  ghost predicate Repeats(x: seq<byte>, i: nat, j: nat, p: nat, end: nat)
  {
    && i + p <= j && 0 < p && end <= |x| && j <= end <= j + p - 1
    && (forall t :: i + p <= t < end ==> x[t] == x[t - p])
    && (forall t :: i <= t < i + p ==> x[t] == x[t - i + (j - p)])
  }

  lemma BehindIsSmaller(x: seq<byte>, s: nat, i: nat, end: nat, reversed: bool)
    requires Behind(x, s, i, end, reversed)
    ensures Smaller(x, s, i, reversed)
  {
    var l: nat :| BehindAt(x, s, i, end, l, reversed);
    assert SmallerAt(x, s, i, l, reversed);
  }

  lemma BehindOnePeriodLater(x: seq<byte>, i: nat, p: nat, end: nat, s: nat, reversed: bool)
    requires end < |x| && 0 < p && i + p < s <= end
    requires forall t :: i + p <= t < end ==> x[t] == x[t - p]
    requires Below(x[end], x[end - p], reversed)
    requires Behind(x, s - p, i, end + 1, reversed)
    ensures Behind(x, s, i, end + 1, reversed)
  {
    var l: nat :| BehindAt(x, s - p, i, end + 1, l, reversed);
    if s + l < end {
      assert Agree(x, s, i, l) by {
        forall u | s <= u < s + l
          ensures x[u] == x[u - s + i]
        {
          assert x[u] == x[u - p];
        }
      }
      assert x[s + l] == x[s + l - p];
      assert BehindAt(x, s, i, end + 1, l, reversed);
    } else {
      var m := end - s;
      assert Agree(x, s, i, m) by {
        forall u | s <= u < s + m
          ensures x[u] == x[u - s + i]
        {
          assert x[u] == x[u - p];
        }
      }
      assert m < l ==> x[end - p] == x[end - p - (s - p) + i];
      assert BehindAt(x, s, i, end + 1, m, reversed);
    }
  }

  /** A lower byte than the period predicts puts every later suffix behind the candidate. */
  lemma {:induction false} LowerByteStep(x: seq<byte>, i: nat, j: nat, p: nat, end: nat, s: nat, reversed: bool)
    requires Repeats(x, i, j, p, end) && Block(x, i, i + p, reversed) && end < |x|
    requires Below(x[end], x[end - p], reversed)
    requires i < s <= end
    ensures Behind(x, s, i, end + 1, reversed)
    decreases s
  {
    if s < i + p {
      assert Behind(x, s, i, i + p, reversed);
      var l: nat :| BehindAt(x, s, i, i + p, l, reversed);
      assert BehindAt(x, s, i, end + 1, l, reversed);
    } else if s == i + p {
      assert BehindAt(x, s, i, end + 1, end - s, reversed);
    } else {
      LowerByteStep(x, i, j, p, end, s - p, reversed);
      BehindOnePeriodLater(x, i, p, end, s, reversed);
    }
  }

  lemma LowerByte(x: seq<byte>, i: nat, j: nat, p: nat, end: nat, reversed: bool)
    requires Scan(x, i, j, p, end, reversed) && end < |x|
    requires Below(x[end], x[end - p], reversed)
    ensures Scan(x, i, end + 1, end + 1 - i, end + 1, reversed)
  {
    var next := end + 1;
    forall s: nat | i < s < next
      ensures Behind(x, s, i, next, reversed)
    {
      LowerByteStep(x, i, j, p, end, s, reversed);
    }
  }

  lemma OnePeriodLaterIsGreater(x: seq<byte>, p: nat, end: nat, s: nat, reversed: bool)
    requires end < |x| && s + p <= end
    requires forall t :: s + p <= t < end ==> x[t] == x[t - p]
    requires Below(x[end - p], x[end], reversed)
    ensures Smaller(x, s, s + p, reversed)
  {
    forall u | s <= u < end - p
      ensures x[u] == x[u + p]
    {
      assert x[u + p] == x[u + p - p];
    }
    assert SmallerAt(x, s, s + p, end - p - s, reversed);
  }

  /** In a copy of the block at `b`, every proper suffix precedes the copy. */
  lemma SuffixOfBlockIsSmaller(x: seq<byte>, i: nat, b: nat, p: nat, s: nat, reversed: bool)
    requires i <= b && b + p <= |x| && b < s < b + p
    requires Block(x, i, i + p, reversed)
    requires forall t :: i <= t < i + p ==> x[t] == x[t - i + b]
    ensures Smaller(x, s, b, reversed)
  {
    var t := s - b + i;
    assert Behind(x, t, i, i + p, reversed);
    var l: nat :| BehindAt(x, t, i, i + p, l, reversed);
    forall u | s <= u < s + l
      ensures x[u] == x[u - s + b]
    {
      var v := u - b + i;
      assert x[v] == x[v - t + i];
      assert x[v] == x[v - i + b];
      assert x[v - t + i] == x[v - t + i - i + b];
    }
    assert x[t + l] == x[t + l - i + b];
    assert x[i + l] == x[i + l - i + b];
    assert SmallerAt(x, s, b, l, reversed);
  }

  /** A higher byte than the period predicts makes the start `j` of the last block the greater one. */
  lemma {:induction false} HigherByteStep(x: seq<byte>, i: nat, j: nat, p: nat, end: nat, s: nat, reversed: bool)
    requires Repeats(x, i, j, p, end) && Block(x, i, i + p, reversed) && end < |x|
    requires Below(x[end - p], x[end], reversed)
    requires i <= s < j
    ensures Smaller(x, s, j, reversed)
    decreases j - s
  {
    hide Smaller, Block, Below;
    if s + p <= j {
      OnePeriodLaterIsGreater(x, p, end, s, reversed);
      if s + p < j {
        HigherByteStep(x, i, j, p, end, s + p, reversed);
        SmallerIsTransitive(x, s, s + p, j, reversed);
      }
    } else {
      SuffixOfBlockIsSmaller(x, i, j - p, p, s, reversed);
      OnePeriodLaterIsGreater(x, p, end, j - p, reversed);
      SmallerIsTransitive(x, s, j - p, j, reversed);
    }
  }

  lemma HigherByte(x: seq<byte>, i: nat, j: nat, p: nat, end: nat, reversed: bool)
    requires Scan(x, i, j, p, end, reversed) && end < |x|
    requires Below(x[end - p], x[end], reversed)
    ensures Scan(x, j, j + 1, 1, j + 1, reversed)
  {
    HigherByteStep(x, i, j, p, end, i, reversed);
    forall s: nat | s < j
      ensures Smaller(x, s, j, reversed)
    {
      if s < i {
        SmallerIsTransitive(x, s, i, j, reversed);
      } else {
        HigherByteStep(x, i, j, p, end, s, reversed);
      }
    }
  }

  /** The byte the period predicts: the block grows, or is complete and the next one starts. */
  lemma EqualByte(x: seq<byte>, i: nat, j: nat, p: nat, end: nat, reversed: bool)
    requires Scan(x, i, j, p, end, reversed) && end < |x|
    requires x[end] == x[end - p]
    ensures end + 1 < j + p ==> Scan(x, i, j, p, end + 1, reversed)
    ensures end + 1 == j + p ==> Scan(x, i, j + p, p, end + 1, reversed)
  {
    if end + 1 == j + p {
      forall t | i <= t < i + p
        ensures x[t] == x[t - i + j]
      {
        assert x[t - i + j] == x[t - i + j - p];
      }
    }
  }

  lemma {:induction false} ScanEndsStep(x: seq<byte>, i: nat, j: nat, p: nat, s: nat, reversed: bool)
    requires Repeats(x, i, j, p, |x|) && Block(x, i, i + p, reversed)
    requires i < s < |x|
    ensures Smaller(x, s, i, reversed)
    decreases s
  {
    if s < i + p {
      assert Behind(x, s, i, i + p, reversed);
      BehindIsSmaller(x, s, i, i + p, reversed);
    } else if s == i + p {
      assert SmallerAt(x, s, i, |x| - s, reversed);
    } else {
      ScanEndsStep(x, i, j, p, s - p, reversed);
      SmallerOnePeriodLater(x, i, p, s, reversed);
    }
  }

  /** Once the whole word is read, the candidate is the start of the maximal suffix. */
  lemma ScanEnds(x: seq<byte>, i: nat, j: nat, p: nat, reversed: bool)
    requires Scan(x, i, j, p, |x|, reversed)
    ensures IsMaximal(x, i, reversed)
  {
    forall s: nat | s < |x| && s != i
      ensures Smaller(x, s, i, reversed)
    {
      if i < s {
        ScanEndsStep(x, i, j, p, s, reversed);
      }
    }
  }

  /** The scan compares the next byte with the one that the period predicts. */
  lemma ComparedByte(x: seq<byte>, i: nat, j: nat, k: nat, p: nat, reversed: bool)
    requires 1 <= k <= p && j + k <= |x| && Scan(x, i, j, p, j + k - 1, reversed)
    ensures x[i + k - 1] == x[j + k - 1 - p]
  {
    assert x[i + k - 1] == x[i + k - 1 - i + (j - p)];
  }

  lemma ScanStarts(x: seq<byte>, reversed: bool)
    requires 0 < |x|
    ensures Scan(x, 0, 1, 1, 1, reversed)
  {
  }

  lemma SmallerOnePeriodLater(x: seq<byte>, i: nat, p: nat, s: nat, reversed: bool)
    requires 0 < p && i + p < s < |x|
    requires forall t :: i + p <= t < |x| ==> x[t] == x[t - p]
    requires Smaller(x, s - p, i, reversed)
    ensures Smaller(x, s, i, reversed)
  {
    var l: nat :| SmallerAt(x, s - p, i, l, reversed);
    var m := if s + l < |x| then l else |x| - s;
    forall u | s <= u < s + m
      ensures x[u] == x[u - s + i]
    {
      assert x[u] == x[u - p] == x[u - p - (s - p) + i];
    }
    assert s + l < |x| ==> x[s + l] == x[s + l - p];
    assert SmallerAt(x, s, i, m, reversed);
  }

  /**
   * The start of the greatest suffix under the byte order or its opposite, with fewer than
   * `2 * |needle|` byte comparisons.
   */
  method MaxSuffix(needle: seq<byte>, reversed: bool) returns (i: nat, ghost comparisons: nat)
    requires 0 < |needle|
    ensures IsMaximal(needle, i, reversed)
    ensures comparisons < 2 * |needle|
  {
    hide Scan, IsMaximal;
    i, comparisons := 0, 0;
    var j: nat, k: nat, p: nat := 1, 1, 1;
    ScanStarts(needle, reversed);
    while j + k <= |needle|
      invariant 1 <= k <= p <= j - i && j + k <= |needle| + 1
      invariant Scan(needle, i, j, p, j + k - 1, reversed)
      invariant comparisons + 2 <= i + j + k
      decreases 2 * |needle| - i - j - k
    {
      var a := needle[i + k - 1];
      var b := needle[j + k - 1];
      comparisons := comparisons + 1;
      ghost var end := j + k - 1;
      ComparedByte(needle, i, j, k, p, reversed);
      if Below(b, a, reversed) {
        LowerByte(needle, i, j, p, end, reversed);
        j := j + k;
        k := 1;
        p := j - i;
      } else if a == b {
        EqualByte(needle, i, j, p, end, reversed);
        if k == p {
          j := j + p;
          k := 1;
        } else {
          k := k + 1;
        }
      } else {
        HigherByte(needle, i, j, p, end, reversed);
        i := j;
        j := i + 1;
        k, p := 1, 1;
      }
    }
    ScanEnds(needle, i, j, p, reversed);
  }

  // ----- Forward search

  function Max(i: nat, j: nat): nat
  {
    if i > j then i else j
  }

  /** The start `cut` of the right part is the later of the two maximal suffixes. */
  ghost predicate IsCut(needle: seq<byte>, cut: nat)
  {
    exists i: nat, j: nat :: IsMaximal(needle, i, false) && IsMaximal(needle, j, true) && cut == Max(i, j)
  }

  lemma LaterIsCut(needle: seq<byte>, i: nat, j: nat)
    requires IsMaximal(needle, i, false) && IsMaximal(needle, j, true)
    ensures IsCut(needle, Max(i, j)) && Max(i, j) < |needle|
  {
  }

  /**
   * The shift after a mismatch in the right part skips no occurrence. An occurrence `s`
   * places to the right would repeat the needle around the cut at distance `s`; by the
   * critical factorization theorem `s` would be a period of the needle, and the byte that
   * mismatched would have matched.
   */
  lemma NoOccurrenceSkipped(haystack: seq<byte>, needle: seq<byte>, cut: nat, pos: nat, k: nat, s: nat)
    requires IsCut(needle, cut)
    requires cut <= k < |needle| && pos + |needle| <= |haystack|
    requires forall t :: cut <= t < k ==> needle[t] == haystack[pos + t]
    requires needle[k] != haystack[pos + k]
    requires 0 < s <= k - cut
    ensures !OccursAt(haystack, needle, pos + s)
  {
    if OccursAt(haystack, needle, pos + s) {
      OccursPointwise(haystack, needle, pos + s);
      forall t | 0 <= t < cut && cut - s <= t && t + s < |needle|
        ensures needle[t] == needle[t + s]
      {
        assert needle[t] == haystack[pos + s + t];
        assert needle[t + s] == haystack[pos + (t + s)];
      }
      var i: nat, j: nat :| IsMaximal(needle, i, false) && IsMaximal(needle, j, true) && cut == Max(i, j);
      CriticalFactorization(needle, i, j, s);
      assert false;
    }
  }

  /** `memmem_twoway`: the leftmost occurrence, or `None` exactly when there is none. */
  method MemmemTwoWay(haystack: seq<byte>, needle: seq<byte>) returns (r: Option<nat>)
    requires 1 <= |needle| <= |haystack|
    ensures IsFirst(haystack, needle, r)
  {
    hide IsMaximal, IsCut;
    var i, _ := MaxSuffix(needle, false);
    var j, _ := MaxSuffix(needle, true);
    var cut := if i > j then i else j;
    LaterIsCut(needle, i, j);
    var pos := 0;
    while pos <= |haystack| - |needle|
      invariant forall q :: 0 <= q < pos ==> !OccursAt(haystack, needle, q)
    {
      var k := cut;
      while k < |needle| && needle[k] == haystack[pos + k]
        invariant cut <= k <= |needle|
        invariant forall t :: cut <= t < k ==> needle[t] == haystack[pos + t]
      {
        k := k + 1;
      }
      OccursPointwise(haystack, needle, pos);
      if k < |needle| {
        forall q | pos < q < pos + (k - cut + 1)
          ensures !OccursAt(haystack, needle, q)
        {
          NoOccurrenceSkipped(haystack, needle, cut, pos, k, q - pos);
        }
        pos := pos + (k - cut + 1);
      } else {
        var f := cut;
        while f > 0 && needle[f - 1] == haystack[pos + f - 1]
          invariant 0 <= f <= cut
          invariant forall t :: f <= t < |needle| ==> needle[t] == haystack[pos + t]
        {
          f := f - 1;
        }
        if f == 0 {
          return Some(pos);
        }
        assert needle[f - 1] != haystack[pos + (f - 1)];
        pos := pos + 1;
      }
    }
    return None;
  }

  // ----- Backward search

  predicate OneByte(needle: seq<byte>)
  {
    forall t :: 0 <= t < |needle| ==> needle[t] == needle[0]
  }

  /**
   * The byte left of the cut differs from the byte at the cut, so the cut is 0 exactly for
   * the needles that repeat one byte.
   */
  lemma CutSeparatesDifferentBytes(needle: seq<byte>, cut: nat)
    requires IsCut(needle, cut)
    ensures cut < |needle| && (0 < cut ==> needle[cut - 1] != needle[cut])
    ensures cut == 0 <==> OneByte(needle)
  {
    var i: nat, j: nat :| IsMaximal(needle, i, false) && IsMaximal(needle, j, true) && cut == Max(i, j);
    if 0 < cut {
      NoShortRepetition(needle, cut, cut == j && cut != i, 1);
    } else {
      CriticalFactorization(needle, i, j, 1);
      OnePeriodic(needle, |needle| - 1);
    }
  }

  lemma {:induction false} OnePeriodic(needle: seq<byte>, n: nat)
    requires n < |needle| && Period(needle, 1)
    ensures forall t :: 0 <= t <= n ==> needle[t] == needle[0]
  {
    if 0 < n {
      OnePeriodic(needle, n - 1);
      assert needle[n - 1] == needle[n - 1 + 1];
    }
  }

  /** One byte behind an occurrence, the comparison does not get past the byte in front of the cut. */
  lemma StopsBeforeCut(haystack: seq<byte>, needle: seq<byte>, cut: nat, k: nat)
    requires OccursAt(haystack, needle, 0) && |haystack| == |needle| + 1
    requires 0 < cut < |needle| && needle[cut - 1] != needle[cut]
    requires k <= |needle| && forall t :: 0 <= t < k ==> needle[t] == haystack[1 + t]
    ensures k < cut
  {
    OccursPointwise(haystack, needle, 0);
    assert needle[cut] == haystack[0 + cut];
    assert needle[cut - 1] != haystack[1 + (cut - 1)];
  }

  /** The first place where the needle differs from the haystack at `pos`; the needle's length if there is none. */
  function Mismatch(haystack: seq<byte>, needle: seq<byte>, pos: nat, from: nat): (k: nat)
    requires pos + |needle| <= |haystack| && from <= |needle|
    ensures from <= k <= |needle| && (k < |needle| ==> needle[k] != haystack[pos + k])
    ensures forall t :: from <= t < k ==> needle[t] == haystack[pos + t]
    decreases |needle| - from
  {
    if from == |needle| || needle[from] != haystack[pos + from] then from else Mismatch(haystack, needle, pos, from + 1)
  }

  /** How far the search moves left from a position whose first mismatch is `k`. */
  function BackShift(cut: nat, k: nat): (s: nat)
    ensures 0 < s
  {
    if k <= cut then cut - k + 1 else 1
  }

  /** The positions that are tried, from `pos` on down to an occurrence or to the last one before the start. */
  function Chain(haystack: seq<byte>, needle: seq<byte>, cut: nat, pos: nat): (c: seq<nat>)
    requires pos + |needle| <= |haystack|
    ensures 0 < |c| && forall i :: 0 <= i < |c| ==> c[i] <= pos
    decreases pos
  {
    var k := Mismatch(haystack, needle, pos, 0);
    var shift := BackShift(cut, k);
    if k == |needle| || shift > pos then [pos] else [pos] + Chain(haystack, needle, cut, pos - shift)
  }

  /** The occurrence that the chain ends at. */
  function Backward(haystack: seq<byte>, needle: seq<byte>, cut: nat, pos: nat): (r: Option<nat>)
    requires pos + |needle| <= |haystack|
  {
    var c := Chain(haystack, needle, cut, pos);
    if OccursAt(haystack, needle, c[|c| - 1]) then Some(c[|c| - 1]) else None
  }

  lemma MismatchOrOccurrence(haystack: seq<byte>, needle: seq<byte>, pos: nat, k: nat)
    requires pos + |needle| <= |haystack| && k <= |needle|
    requires forall t :: 0 <= t < k ==> needle[t] == haystack[pos + t]
    requires k < |needle| ==> needle[k] != haystack[pos + k]
    ensures Mismatch(haystack, needle, pos, 0) == k
    ensures OccursAt(haystack, needle, pos) <==> k == |needle|
  {
    OccursPointwise(haystack, needle, pos);
    var m := Mismatch(haystack, needle, pos, 0);
    assert m < |needle| ==> needle[m] != haystack[pos + m];
  }

  /**
   * One step of the backward search: an occurrence is taken. After a first mismatch at `k` up to the cut the search
   * goes on `cut - k + 1` places to the left, and after a later one a single place, until there is no such place.
   */
  lemma BackwardStep(haystack: seq<byte>, needle: seq<byte>, cut: nat, pos: nat, k: nat)
    requires pos + |needle| <= |haystack| && k <= |needle|
    requires forall t :: 0 <= t < k ==> needle[t] == haystack[pos + t]
    requires k < |needle| ==> needle[k] != haystack[pos + k]
    ensures k == |needle| ==> OccursAt(haystack, needle, pos) && Backward(haystack, needle, cut, pos) == Some(pos)
    ensures k < |needle| ==>
              var shift := if k <= cut then cut - k + 1 else 1;
              Backward(haystack, needle, cut, pos) == if shift > pos then None else Backward(haystack, needle, cut, pos - shift)
  {
    hide OccursAt, Mismatch;
    MismatchOrOccurrence(haystack, needle, pos, k);
  }

  /** The result is the first occurrence on the chain, and `None` exactly if the chain holds none. */
  lemma {:induction false} BackwardIsFirstOnChain(haystack: seq<byte>, needle: seq<byte>, cut: nat, pos: nat)
    requires pos + |needle| <= |haystack|
    ensures var c, r := Chain(haystack, needle, cut, pos), Backward(haystack, needle, cut, pos);
            && c[0] == pos && (r.None? <==> forall i :: 0 <= i < |c| ==> !OccursAt(haystack, needle, c[i]))
            && (forall i :: 0 <= i < |c| - 1 ==> !OccursAt(haystack, needle, c[i]))
            && (r.Some? ==> r.value == c[|c| - 1] && OccursAt(haystack, needle, r.value))
    decreases pos
  {
    hide OccursAt, Mismatch, BackShift;
    var k := Mismatch(haystack, needle, pos, 0);
    MismatchOrOccurrence(haystack, needle, pos, k);
    if k < |needle| && BackShift(cut, k) <= pos {
      BackwardIsFirstOnChain(haystack, needle, cut, pos - BackShift(cut, k));
    }
  }

  lemma MaximalIsUnique(needle: seq<byte>, i: nat, j: nat, reversed: bool)
    requires IsMaximal(needle, i, reversed) && IsMaximal(needle, j, reversed)
    ensures i == j
  {
    hide Smaller;
    if i != j {
      SmallerIsAsymmetric(needle, i, j, reversed);
    }
  }

  lemma CutIsUnique(needle: seq<byte>, c: nat, d: nat)
    requires IsCut(needle, c) && IsCut(needle, d)
    ensures c == d
  {
    hide IsMaximal;
    var i: nat, j: nat :| IsMaximal(needle, i, false) && IsMaximal(needle, j, true) && c == Max(i, j);
    var k: nat, l: nat :| IsMaximal(needle, k, false) && IsMaximal(needle, l, true) && d == Max(k, l);
    MaximalIsUnique(needle, i, k, false);
    MaximalIsUnique(needle, j, l, true);
  }

  /** At cut 0 every place is tried. */
  lemma {:induction false} NothingSkippedAtCutZero(haystack: seq<byte>, needle: seq<byte>, pos: nat)
    requires pos + |needle| <= |haystack|
    ensures var r := Backward(haystack, needle, 0, pos);
            && (r.Some? ==> r.value <= pos && OccursAt(haystack, needle, r.value))
            && forall q: nat :: (if r.Some? then r.value + 1 else 0) <= q <= pos ==> !OccursAt(haystack, needle, q)
    decreases pos
  {
    hide OccursAt, Mismatch, Backward;
    var k := Mismatch(haystack, needle, pos, 0);
    MismatchOrOccurrence(haystack, needle, pos, k);
    BackwardStep(haystack, needle, 0, pos, k);
    if k < |needle| && 0 < pos {
      NothingSkippedAtCutZero(haystack, needle, pos - 1);
    }
  }

  /** The needle and one more byte: the chain leaves the haystack at its first step. */
  lemma MissedAtCut(haystack: seq<byte>, needle: seq<byte>, cut: nat)
    requires 0 < cut < |needle| && needle[cut - 1] != needle[cut]
    requires |haystack| == |needle| + 1 && OccursAt(haystack, needle, 0)
    ensures Backward(haystack, needle, cut, 1) == None
  {
    var k := Mismatch(haystack, needle, 1, 0);
    StopsBeforeCut(haystack, needle, cut, k);
    hide Mismatch, Backward, OccursAt;
    BackwardStep(haystack, needle, cut, 1, k);
  }

  /**
   * `memrmem_twoway`: the first occurrence on the chain of positions that starts at the end of the haystack, so an
   * occurrence there is always found. It is the rightmost one in every haystack exactly when the needle repeats a single
   * byte: for any other needle it misses the occurrence at 0 in the needle followed by one more byte, whichever that is.
   */
  method MemrmemTwoWay(haystack: seq<byte>, needle: seq<byte>) returns (r: Option<nat>)
    requires 1 <= |needle| <= |haystack|
    ensures forall cut: nat :: IsCut(needle, cut) ==> r == Backward(haystack, needle, cut, |haystack| - |needle|)
    ensures r.Some? ==> OccursAt(haystack, needle, r.value)
    ensures OccursAt(haystack, needle, |haystack| - |needle|) ==> r == Some(|haystack| - |needle|)
    ensures OneByte(needle) ==> IsLast(haystack, needle, r)
    ensures !OneByte(needle) && |haystack| == |needle| + 1 && OccursAt(haystack, needle, 0) ==> r == None
  {
    hide IsMaximal, IsCut, OneByte, Mismatch, Backward, OccursAt, IsLast;
    var i, _ := MaxSuffix(needle, false);
    var j, _ := MaxSuffix(needle, true);
    var cut := if i > j then i else j;
    LaterIsCut(needle, i, j);
    CutSeparatesDifferentBytes(needle, cut);
    var pos := |haystack| - |needle|;
    BackwardFacts(haystack, needle, cut);
    while true
      invariant 0 <= pos <= |haystack| - |needle|
      invariant Backward(haystack, needle, cut, pos) == Backward(haystack, needle, cut, |haystack| - |needle|)
      decreases pos
    {
      var k := 0;
      while k <= cut && needle[k] == haystack[pos + k]
        invariant 0 <= k <= cut + 1
        invariant forall t :: 0 <= t < k ==> needle[t] == haystack[pos + t]
      {
        k := k + 1;
      }
      if k <= cut {
        BackwardStep(haystack, needle, cut, pos, k);
        var shift := cut - k + 1;
        if shift > pos {
          r := None;
          break;
        }
        pos := pos - shift;
      } else {
        var t := cut + 1;
        while t < |needle| && needle[t] == haystack[pos + t]
          invariant cut + 1 <= t <= |needle|
          invariant forall u :: 0 <= u < t ==> needle[u] == haystack[pos + u]
        {
          t := t + 1;
        }
        BackwardStep(haystack, needle, cut, pos, t);
        if t == |needle| {
          r := Some(pos);
          break;
        }
        if pos == 0 {
          r := None;
          break;
        }
        pos := pos - 1;
      }
    }
    forall c: nat | IsCut(needle, c)
      ensures c == cut
    {
      CutIsUnique(needle, c, cut);
    }
  }

  /** What the contract of `memrmem_twoway` says of the chain from the end of the haystack. */
  lemma BackwardFacts(haystack: seq<byte>, needle: seq<byte>, cut: nat)
    requires 1 <= |needle| <= |haystack| && IsCut(needle, cut)
    ensures var r := Backward(haystack, needle, cut, |haystack| - |needle|);
            && (r.Some? ==> OccursAt(haystack, needle, r.value))
            && (OccursAt(haystack, needle, |haystack| - |needle|) ==> r == Some(|haystack| - |needle|))
            && (OneByte(needle) ==> IsLast(haystack, needle, r))
            && (!OneByte(needle) && |haystack| == |needle| + 1 && OccursAt(haystack, needle, 0) ==> r == None)
  {
    hide IsCut, OneByte, Mismatch, Backward, Chain;
    var last := |haystack| - |needle|;
    CutSeparatesDifferentBytes(needle, cut);
    BackwardIsFirstOnChain(haystack, needle, cut, last);
    var k := Mismatch(haystack, needle, last, 0);
    MismatchOrOccurrence(haystack, needle, last, k);
    BackwardStep(haystack, needle, cut, last, k);
    if OneByte(needle) {
      NothingSkippedAtCutZero(haystack, needle, last);
    } else if |haystack| == |needle| + 1 && OccursAt(haystack, needle, 0) {
      MissedAtCut(haystack, needle, cut);
    }
  }
}
