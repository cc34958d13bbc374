// The lexicographic order on the suffixes of a word, the maximal suffix search of
// String.cpp, and the critical factorization theorem that the two-way search rests on.
module SuffixOrder {
  import opened Common

  /** The byte order, or its opposite when `reversed`. */
  predicate Below(a: byte, b: byte, reversed: bool)
  {
    if reversed then a > b else a < b
  }

  /** The `l` bytes from `s` on are the `l` bytes from `t` on. */
  ghost predicate Agree(x: seq<byte>, s: nat, t: nat, l: nat)
  {
    s + l <= |x| && t + l <= |x| && forall u :: s <= u < s + l ==> x[u] == x[u - s + t]
  }

  /** After `l` common bytes the suffix at `s` ends or continues with the lower byte. */
  ghost predicate SmallerAt(x: seq<byte>, s: nat, t: nat, l: nat, reversed: bool)
  {
    Agree(x, s, t, l) && t + l < |x| && (s + l == |x| || Below(x[s + l], x[t + l], reversed))
  }

  /** The suffix of `x` at `s` precedes the suffix at `t`; a proper prefix precedes the longer word. */
  ghost predicate Smaller(x: seq<byte>, s: nat, t: nat, reversed: bool)
  {
    exists l: nat :: SmallerAt(x, s, t, l, reversed)
  }

  ghost predicate IsMaximal(x: seq<byte>, i: nat, reversed: bool)
  {
    i < |x| && forall s: nat :: s < |x| && s != i ==> Smaller(x, s, i, reversed)
  }

  /** The first difference decides: nothing else can be claimed about the two suffixes. */
  lemma FirstDifferenceDecides(x: seq<byte>, s: nat, t: nat, l: nat, m: nat, reversed: bool)
    requires SmallerAt(x, s, t, l, reversed)
    ensures !SmallerAt(x, t, s, m, reversed)
    ensures SmallerAt(x, s, t, m, !reversed) ==> m == l && s + l == |x|
  {
    assert m < l ==> x[s + m] == x[t + m];
    assert s + l < |x| ==> x[s + l] != x[t + l];
  }

  /**
   * What the greatest suffix is: any other one agrees with it up to a place where the other one ends or has the lower
   * byte, or the higher byte in the reversed order.
   */
  lemma MaximalMeaning(x: seq<byte>, i: nat, s: nat, reversed: bool) returns (l: nat)
    requires IsMaximal(x, i, reversed) && s < |x| && s != i
    ensures i + l < |x| && s + l <= |x| && x[s..s + l] == x[i..i + l]
    ensures s + l == |x| || (if reversed then x[i + l] < x[s + l] else x[s + l] < x[i + l])
  {
    hide Below;
    assert Smaller(x, s, i, reversed);
    l :| SmallerAt(x, s, i, l, reversed);
    AgreeMeaning(x, s, i, l);
    if s + l < |x| {
      BelowMeaning(x[s + l], x[i + l], reversed);
    }
  }

  lemma AgreeMeaning(x: seq<byte>, s: nat, t: nat, l: nat)
    requires Agree(x, s, t, l)
    ensures s + l <= |x| && t + l <= |x| && x[s..s + l] == x[t..t + l]
  {
    var a, b := x[s..s + l], x[t..t + l];
    forall u | 0 <= u < l
      ensures a[u] == b[u]
    {
      assert x[s + u] == x[s + u - s + t];
    }
  }

  lemma BelowMeaning(a: byte, b: byte, reversed: bool)
    ensures Below(a, b, reversed) <==> if reversed then b < a else a < b
  {
  }

  lemma SmallerIsAsymmetric(x: seq<byte>, s: nat, t: nat, reversed: bool)
    requires Smaller(x, s, t, reversed)
    ensures !Smaller(x, t, s, reversed)
  {
    var l: nat :| SmallerAt(x, s, t, l, reversed);
    forall m: nat
      ensures !SmallerAt(x, t, s, m, reversed)
    {
      FirstDifferenceDecides(x, s, t, l, m, reversed);
    }
  }

  lemma SmallerIsTransitive(x: seq<byte>, s: nat, t: nat, v: nat, reversed: bool)
    requires Smaller(x, s, t, reversed) && Smaller(x, t, v, reversed)
    ensures Smaller(x, s, v, reversed)
  {
    var l: nat :| SmallerAt(x, s, t, l, reversed);
    var m: nat :| SmallerAt(x, t, v, m, reversed);
    TransitiveAt(x, s, t, v, l, m, reversed);
  }

  lemma TransitiveAt(x: seq<byte>, s: nat, t: nat, v: nat, l: nat, m: nat, reversed: bool)
    requires SmallerAt(x, s, t, l, reversed) && SmallerAt(x, t, v, m, reversed)
    ensures SmallerAt(x, s, v, if l < m then l else m, reversed)
  {
    var least := if l < m then l else m;
    forall u | s <= u < s + least
      ensures x[u] == x[u - s + v]
    {
      assert x[u] == x[u - s + t] == x[u - s + v];
    }
    if l < m {
      assert x[t + l] == x[v + l];
    } else if m < l {
      assert x[s + m] == x[t + m];
    }
  }

  // ----- Critical factorization

  /** Around the cut, `x` repeats at distance `r`, as far as `x` reaches. */
  ghost predicate LocalRepetition(x: seq<byte>, cut: nat, r: nat)
  {
    forall t :: 0 <= t < cut && cut - r <= t && t + r < |x| ==> x[t] == x[t + r]
  }

  ghost predicate Period(x: seq<byte>, r: nat)
  {
    forall t :: 0 <= t && t + r < |x| ==> x[t] == x[t + r]
  }

  /** No repetition fits to the left of the start of a maximal suffix. */
  lemma NoShortRepetition(x: seq<byte>, cut: nat, reversed: bool, r: nat)
    requires IsMaximal(x, cut, reversed)
    requires 0 < r <= cut
    ensures !LocalRepetition(x, cut, r)
  {
    var s := cut - r;
    assert Smaller(x, s, cut, reversed);
    var l: nat :| SmallerAt(x, s, cut, l, reversed);
    if l < r {
      assert x[s + l] != x[s + l + r];
    } else {
      // a repetition inside the common part would order `cut` before `cut + r` as well
      assert Smaller(x, cut + r, cut, reversed);
      SmallerIsAsymmetric(x, cut + r, cut, reversed);
      assert false;
    }
  }

  /** A suffix that precedes another in both orders is a prefix of it. */
  lemma SmallerInBothOrders(x: seq<byte>, s: nat, t: nat)
    requires Smaller(x, s, t, false) && Smaller(x, s, t, true)
    ensures s <= |x| && Agree(x, s, t, |x| - s)
  {
    var l: nat :| SmallerAt(x, s, t, l, false);
    var m: nat :| SmallerAt(x, s, t, m, true);
    FirstDifferenceDecides(x, s, t, l, m, false);
  }

  /** A common start of two suffixes may be cut off without changing their order. */
  lemma DropCommonStart(x: seq<byte>, s: nat, t: nat, d: nat, reversed: bool)
    requires Smaller(x, s, t, reversed)
    requires Agree(x, s, t, d) && s + d < |x|
    ensures Smaller(x, s + d, t + d, reversed)
  {
    var l: nat :| SmallerAt(x, s, t, l, reversed);
    assert s + l < |x| ==> x[s + l] != x[t + l];
    forall u | s + d <= u < s + l
      ensures x[u] == x[u - (s + d) + (t + d)]
    {
      assert x[u] == x[u - s + t];
    }
    assert SmallerAt(x, s + d, t + d, l - d, reversed);
  }

  lemma CriticalCut(x: seq<byte>, cut: nat, other: nat, reversed: bool, r: nat)
    requires IsMaximal(x, cut, reversed) && IsMaximal(x, other, !reversed)
    requires other <= cut
    requires 0 < r && LocalRepetition(x, cut, r)
    ensures cut < r && Period(x, r)
  {
    if r <= cut {
      NoShortRepetition(x, cut, reversed, r);
    }
    if cut + r < |x| {
      RestIsPrefix(x, cut, other, reversed, r);
      forall t | 0 <= t && t + r < |x|
        ensures x[t] == x[t + r]
      {
        if cut <= t {
          assert x[t + r] == x[t + r - (cut + r) + cut];
        }
      }
    }
  }

  /**
   * What follows the repetition is a prefix of the right part: it precedes it in the one order
   * because the cut is maximal, and in the other because the earlier start is.
   */
  lemma RestIsPrefix(x: seq<byte>, cut: nat, other: nat, reversed: bool, r: nat)
    requires IsMaximal(x, cut, reversed) && IsMaximal(x, other, !reversed)
    requires other <= cut < r && LocalRepetition(x, cut, r) && cut + r < |x|
    ensures Agree(x, cut + r, cut, |x| - (cut + r))
  {
    hide Smaller;
    assert Smaller(x, cut + r, cut, reversed);
    assert Smaller(x, other + r, other, !reversed);
    assert Agree(x, other + r, other, cut - other) by {
      forall u | other + r <= u < cut + r
        ensures x[u] == x[u - (other + r) + other]
      {
        assert x[u - r] == x[u - r + r];
      }
    }
    DropCommonStart(x, other + r, other, cut - other, !reversed);
    SmallerInBothOrders(x, cut + r, cut);
  }

  /**
   * The critical factorization theorem: at the later of the two maximal suffixes
   * (one for each byte order) every repetition is longer than the left part and is a
   * period of the whole word.
   */
  lemma CriticalFactorization(x: seq<byte>, i: nat, j: nat, r: nat)
    requires IsMaximal(x, i, false) && IsMaximal(x, j, true)
    requires 0 < r && LocalRepetition(x, if i > j then i else j, r)
    ensures (if i > j then i else j) < r && Period(x, r)
  {
    if i > j {
      CriticalCut(x, i, j, false, r);
    } else {
      CriticalCut(x, j, i, true, r);
    }
  }
}
