// What it means for a needle to occur in a haystack: the specification shared by
// both search algorithms of arduino/cores/String.cpp and by `replace`.
module Search {
  import opened Common

  predicate OccursAt(haystack: seq<byte>, needle: seq<byte>, p: int)
  {
    0 <= p <= |haystack| - |needle| && haystack[p..p + |needle|] == needle
  }

  /** `r` is the leftmost occurrence, or `None` exactly when there is none. */
  ghost predicate IsFirst(haystack: seq<byte>, needle: seq<byte>, r: Option<nat>)
  {
    match r
    case Some(p) => OccursAt(haystack, needle, p) && forall q :: 0 <= q < p ==> !OccursAt(haystack, needle, q)
    case None => forall q :: !OccursAt(haystack, needle, q)
  }

  /** `r` is the rightmost occurrence, or `None` exactly when there is none. */
  ghost predicate IsLast(haystack: seq<byte>, needle: seq<byte>, r: Option<nat>)
  {
    match r
    case Some(p) => OccursAt(haystack, needle, p) && forall q :: p < q ==> !OccursAt(haystack, needle, q)
    case None => forall q :: !OccursAt(haystack, needle, q)
  }

  /** Pointwise form of `OccursAt`, for proofs that work index by index. */
  lemma OccursPointwise(haystack: seq<byte>, needle: seq<byte>, p: nat)
    requires p + |needle| <= |haystack|
    ensures OccursAt(haystack, needle, p) <==> forall t :: 0 <= t < |needle| ==> needle[t] == haystack[p + t]
  {
    var window := haystack[p..p + |needle|];
    assert forall t :: 0 <= t < |needle| ==> window[t] == haystack[p + t];
  }

  /** At most one result is leftmost. */
  lemma FirstIsUnique(haystack: seq<byte>, needle: seq<byte>, r: Option<nat>, r': Option<nat>)
    requires IsFirst(haystack, needle, r) && IsFirst(haystack, needle, r')
    ensures r == r'
  {
    if r.Some? && r'.Some? {
      assert OccursAt(haystack, needle, r.value) && OccursAt(haystack, needle, r'.value);
    }
  }

  function FirstFrom(haystack: seq<byte>, needle: seq<byte>, p: nat): (r: Option<nat>)
    ensures r.Some? ==> p <= r.value && OccursAt(haystack, needle, r.value)
    ensures forall q :: p <= q < (if r.Some? then r.value else |haystack| + 1) ==> !OccursAt(haystack, needle, q)
    decreases |haystack| - p
  {
    if OccursAt(haystack, needle, p) then Some(p)
    else if p < |haystack| then FirstFrom(haystack, needle, p + 1)
    else None
  }

  function First(haystack: seq<byte>, needle: seq<byte>): (r: Option<nat>)
    ensures IsFirst(haystack, needle, r)
  {
    FirstFrom(haystack, needle, 0)
  }
}
