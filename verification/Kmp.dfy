// The Knuth-Morris-Pratt back end of arduino/cores/String.cpp, forward and backward.
module Kmp {
  import opened Common
  import opened Search

  /** The first `m` bytes of the needle are the `m` bytes of the text that end at `e`. */
  ghost predicate EndsAt(text: seq<byte>, needle: seq<byte>, m: nat, e: nat)
  {
    m <= |needle| && m <= e <= |text| && forall t :: e - m <= t < e ==> text[t] == needle[t - (e - m)]
  }

  /** `m` is the longest needle prefix shorter than `limit` that ends at `e`. */
  ghost predicate Longest(text: seq<byte>, needle: seq<byte>, e: nat, m: nat, limit: nat)
  {
    m < limit && EndsAt(text, needle, m, e) && forall m': nat :: m < m' < limit ==> !EndsAt(text, needle, m', e)
  }

  /** `m` is the length of the longest proper border of the needle's prefix of length `e`. */
  ghost predicate LongestBorder(needle: seq<byte>, e: nat, m: nat)
  {
    Longest(needle, needle, e, m, e)
  }

  /** Each of the first `n` entries `i` is the longest proper border of the prefix of length `i + 1`. */
  ghost predicate IsBorderTable(needle: seq<byte>, table: seq<nat>, n: nat)
  {
    n <= |needle| && n <= |table| && forall i :: 0 <= i < n ==> LongestBorder(needle, i + 1, table[i])
  }

  /** Every prefix shorter than `limit` that ends at `e` and goes on with `c` has length at most `m`. */
  ghost predicate Candidate(text: seq<byte>, needle: seq<byte>, e: nat, m: nat, limit: nat, c: byte)
  {
    && m < limit <= |needle| && EndsAt(text, needle, m, e)
    && forall m': nat :: m < m' < limit && EndsAt(text, needle, m', e) ==> needle[m'] != c
  }

  /** A shorter prefix that ends at the same place is a border of the longer one, and back. */
  lemma BordersOfMatch(text: seq<byte>, needle: seq<byte>, e: nat, m: nat, m': nat)
    requires EndsAt(text, needle, m, e) && m' < m
    ensures EndsAt(text, needle, m', e) <==> EndsAt(needle, needle, m', m)
  {
    if EndsAt(text, needle, m', e) {
      forall t | m - m' <= t < m
        ensures needle[t] == needle[t - (m - m')]
      {
        assert text[t + (e - m)] == needle[t + (e - m) - (e - m)];
        assert text[t + (e - m)] == needle[t + (e - m) - (e - m')];
      }
    }
    if EndsAt(needle, needle, m', m) {
      forall t | e - m' <= t < e
        ensures text[t] == needle[t - (e - m')]
      {
        assert text[t] == needle[t - (e - m)];
      }
    }
  }

  /** Falling back to the longest border loses no candidate. */
  lemma FallBack(text: seq<byte>, needle: seq<byte>, e: nat, m: nat, limit: nat, c: byte, border: nat)
    requires Candidate(text, needle, e, m, limit, c)
    requires 0 < m && needle[m] != c && LongestBorder(needle, m, border)
    ensures Candidate(text, needle, e, border, limit, c)
  {
    BordersOfMatch(text, needle, e, m, border);
    forall m': nat | border < m' < m
      ensures !EndsAt(text, needle, m', e)
    {
      BordersOfMatch(text, needle, e, m, m');
    }
  }

  lemma OneMoreByte(text: seq<byte>, needle: seq<byte>, e: nat, m: nat)
    requires e < |text| && 0 < m <= |needle|
    ensures EndsAt(text, needle, m, e + 1) <==> EndsAt(text, needle, m - 1, e) && needle[m - 1] == text[e]
  {
    if EndsAt(text, needle, m, e + 1) {
      assert text[e] == needle[e - (e + 1 - m)];
    }
  }

  /** Before a byte is compared, the longest match is a candidate for every byte. */
  lemma LongestIsCandidate(text: seq<byte>, needle: seq<byte>, e: nat, m: nat, limit: nat, c: byte)
    requires limit <= |needle| && Longest(text, needle, e, m, limit)
    ensures Candidate(text, needle, e, m, limit, c)
  {
  }

  lemma StartsEmpty(text: seq<byte>, needle: seq<byte>)
    requires 0 < |needle|
    ensures Longest(text, needle, 0, 0, |needle|)
    ensures !EndsAt(text, needle, |needle|, 0)
  {
  }

  /** The longest match is the whole needle, or the needle does not end here. */
  lemma Outcome(text: seq<byte>, needle: seq<byte>, e: nat, m: nat)
    requires Longest(text, needle, e, m, |needle| + 1)
    ensures m == |needle| <==> EndsAt(text, needle, |needle|, e)
    ensures m <= |needle| && (m < |needle| ==> Longest(text, needle, e, m, |needle|))
  {
  }

  lemma TableGrows(needle: seq<byte>, table: seq<nat>, i: nat, border: nat)
    requires i < |table| && i < |needle| && IsBorderTable(needle, table, i)
    requires Longest(needle, needle, i + 1, border, i + 1)
    ensures IsBorderTable(needle, table[i := border], i + 1)
  {
    hide Longest;
  }

  /** The first entry is 0. */
  lemma FirstEntry(needle: seq<byte>, table: seq<nat>)
    requires 0 < |needle| == |table| && table[0] == 0
    ensures Longest(needle, needle, 1, 0, 1) && IsBorderTable(needle, table, 1)
  {
  }

  lemma TableEntry(needle: seq<byte>, table: seq<nat>, n: nat, m: nat)
    requires IsBorderTable(needle, table, n) && 0 < m <= n
    ensures LongestBorder(needle, m, table[m - 1]) && table[m - 1] < m && m <= |table|
  {
  }

  /** The step common to both loops: the candidate grows, or nothing but the empty prefix is left. */
  lemma Advance(text: seq<byte>, needle: seq<byte>, e: nat, m: nat, limit: nat)
    requires e < |text| && Candidate(text, needle, e, m, limit, text[e])
    requires m == 0 || needle[m] == text[e]
    ensures Longest(text, needle, e + 1, if needle[m] == text[e] then m + 1 else m, limit + 1)
  {
    var e', next := e + 1, if needle[m] == text[e] then m + 1 else m;
    forall m': nat | next < m' < limit + 1
      ensures !EndsAt(text, needle, m', e')
    {
      OneMoreByte(text, needle, e, m');
    }
    OneMoreByte(text, needle, e, m + 1);
  }

  /** `kmp_compute_lps_table`: every entry is the longest proper border of its needle prefix. */
  method ComputeLpsTable(needle: seq<byte>, lpsTable: array<nat>)
    requires 0 < |needle| == lpsTable.Length
    modifies lpsTable
    ensures IsBorderTable(needle, lpsTable[..], |needle|)
  {
    hide LongestBorder, IsBorderTable, EndsAt;
    FirstEntry(needle, lpsTable[..][0 := 0]);
    var matched: nat := 0;
    lpsTable[0] := 0;
    assert lpsTable[..] == old(lpsTable[..])[0 := 0];
    for i := 1 to |needle|
      invariant Longest(needle, needle, i, matched, i)
      invariant IsBorderTable(needle, lpsTable[..], i)
    {
      ghost var table := lpsTable[..];
      LongestIsCandidate(needle, needle, i, matched, i, needle[i]);
      while matched > 0 && needle[i] != needle[matched]
        invariant Candidate(needle, needle, i, matched, i, needle[i])
        invariant lpsTable[..] == table && matched < i
      {
        TableEntry(needle, lpsTable[..], i, matched);
        FallBack(needle, needle, i, matched, i, needle[i], lpsTable[matched - 1]);
        matched := lpsTable[matched - 1];
      }
      Advance(needle, needle, i, matched, i);
      if needle[i] == needle[matched] {
        matched := matched + 1;
      }
      TableGrows(needle, table, i, matched);
      lpsTable[i] := matched;
      assert lpsTable[..] == table[i := matched];
    }
  }

  lemma MatchIsOccurrence(text: seq<byte>, needle: seq<byte>, e: nat)
    ensures EndsAt(text, needle, |needle|, e) <==> OccursAt(text, needle, e - |needle|)
  {
    if |needle| <= e <= |text| {
      var p := e - |needle|;
      OccursPointwise(text, needle, p);
      if OccursAt(text, needle, p) {
        forall t | p <= t < e
          ensures text[t] == needle[t - p]
        {
          assert needle[t - p] == text[p + (t - p)];
        }
      }
      if EndsAt(text, needle, |needle|, e) {
        forall t | 0 <= t < |needle|
          ensures needle[t] == text[p + t]
        {
          assert text[p + t] == needle[p + t - p];
        }
      }
    }
  }

  /**
   * `memmem_kmp`: the leftmost occurrence, or `None` exactly when there is none. All the
   * fallbacks of one search together are at most as many as the bytes of the haystack.
   */
  method MemmemKmp(haystack: seq<byte>, needle: seq<byte>) returns (r: Option<nat>, ghost fallbacks: nat)
    requires 0 < |needle|
    ensures IsFirst(haystack, needle, r)
    ensures fallbacks <= |haystack|
  {
    hide Longest, Candidate, EndsAt, IsBorderTable;
    var lpsTable := new nat[|needle|];
    ComputeLpsTable(needle, lpsTable);
    fallbacks := 0;
    var needleIndex: nat := 0;
    StartsEmpty(haystack, needle);
    for haystackIndex := 0 to |haystack|
      invariant needleIndex < |needle| && Longest(haystack, needle, haystackIndex, needleIndex, |needle|)
      invariant forall e :: 0 <= e <= haystackIndex ==> !EndsAt(haystack, needle, |needle|, e)
      invariant IsBorderTable(needle, lpsTable[..], |needle|)
      invariant fallbacks + needleIndex <= haystackIndex
    {
      LongestIsCandidate(haystack, needle, haystackIndex, needleIndex, |needle|, haystack[haystackIndex]);
      while needleIndex > 0 && haystack[haystackIndex] != needle[needleIndex]
        invariant needleIndex < |needle|
        invariant Candidate(haystack, needle, haystackIndex, needleIndex, |needle|, haystack[haystackIndex])
        invariant IsBorderTable(needle, lpsTable[..], |needle|)
        invariant fallbacks + needleIndex <= haystackIndex
      {
        TableEntry(needle, lpsTable[..], |needle|, needleIndex);
        FallBack(haystack, needle, haystackIndex, needleIndex, |needle|, haystack[haystackIndex], lpsTable[needleIndex - 1]);
        needleIndex := lpsTable[needleIndex - 1];
        fallbacks := fallbacks + 1;
      }
      Advance(haystack, needle, haystackIndex, needleIndex, |needle|);
      if haystack[haystackIndex] == needle[needleIndex] {
        needleIndex := needleIndex + 1;
      }
      Outcome(haystack, needle, haystackIndex + 1, needleIndex);
      if needleIndex == |needle| {
        forall q | 0 <= q < haystackIndex + 1 - |needle|
          ensures !OccursAt(haystack, needle, q)
        {
          MatchIsOccurrence(haystack, needle, q + |needle|);
        }
        MatchIsOccurrence(haystack, needle, haystackIndex + 1);
        return Some(haystackIndex - |needle| + 1), fallbacks;
      }
    }
    forall q
      ensures !OccursAt(haystack, needle, q)
    {
      if 0 <= q {
        MatchIsOccurrence(haystack, needle, q + |needle|);
      }
    }
    return None, fallbacks;
  }

  // ----- Backward search

  function Reversed(s: seq<byte>): (r: seq<byte>)
    ensures |r| == |s| && forall t :: 0 <= t < |s| ==> r[t] == s[|s| - 1 - t]
  {
    seq(|s|, t requires 0 <= t < |s| => s[|s| - 1 - t])
  }

  /** The reversed needle ends at `e` in the reversed haystack where the needle starts in the haystack. */
  lemma ReversedMatchIsOccurrence(haystack: seq<byte>, needle: seq<byte>, e: nat)
    ensures EndsAt(Reversed(haystack), Reversed(needle), |needle|, e) <==> OccursAt(haystack, needle, |haystack| - e)
  {
    var text, pattern, p := Reversed(haystack), Reversed(needle), |haystack| - e;
    if |needle| <= e <= |haystack| {
      OccursPointwise(haystack, needle, p);
      if OccursAt(haystack, needle, p) {
        forall t | e - |needle| <= t < e
          ensures text[t] == pattern[t - (e - |needle|)]
        {
          assert needle[e - 1 - t] == haystack[p + (e - 1 - t)];
        }
      }
      if EndsAt(text, pattern, |needle|, e) {
        forall t | 0 <= t < |needle|
          ensures needle[t] == haystack[p + t]
        {
          assert text[e - 1 - t] == pattern[e - 1 - t - (e - |needle|)];
        }
      }
    }
  }

  /** `memrmem_kmp`: the rightmost occurrence, or `None` exactly when there is none. */
  method MemrmemKmp(haystack: seq<byte>, needle: seq<byte>) returns (r: Option<nat>, ghost fallbacks: nat)
    requires 0 < |needle|
    ensures IsLast(haystack, needle, r)
    ensures fallbacks <= |haystack|
  {
    hide Longest, Candidate, EndsAt, IsBorderTable;
    ghost var text := Reversed(haystack);
    var needleReversed := new byte[|needle|];
    var j := |needle| - 1;
    for i := 0 to |needle|
      invariant j == |needle| - 1 - i
      invariant forall t :: 0 <= t < i ==> needleReversed[t] == needle[|needle| - 1 - t]
    {
      needleReversed[i] := needle[j];
      j := j - 1;
    }
    var pattern := needleReversed[..];
    assert pattern == Reversed(needle);
    var lpsTable := new nat[|needle|];
    ComputeLpsTable(pattern, lpsTable);
    fallbacks := 0;
    var needleIndex: nat := 0;
    var haystackIndex := |haystack| - 1;
    StartsEmpty(text, pattern);
    for i := 0 to |haystack|
      invariant haystackIndex == |haystack| - 1 - i
      invariant needleIndex < |needle| && Longest(text, pattern, i, needleIndex, |needle|)
      invariant forall e :: 0 <= e <= i ==> !EndsAt(text, pattern, |needle|, e)
      invariant IsBorderTable(pattern, lpsTable[..], |needle|)
      invariant needleReversed[..] == pattern
      invariant fallbacks + needleIndex <= i
    {
      LongestIsCandidate(text, pattern, i, needleIndex, |needle|, text[i]);
      while needleIndex > 0 && haystack[haystackIndex] != needleReversed[needleIndex]
        invariant needleIndex < |needle|
        invariant Candidate(text, pattern, i, needleIndex, |needle|, text[i])
        invariant IsBorderTable(pattern, lpsTable[..], |needle|)
        invariant needleReversed[..] == pattern
        invariant fallbacks + needleIndex <= i
      {
        TableEntry(pattern, lpsTable[..], |needle|, needleIndex);
        FallBack(text, pattern, i, needleIndex, |needle|, text[i], lpsTable[needleIndex - 1]);
        needleIndex := lpsTable[needleIndex - 1];
        fallbacks := fallbacks + 1;
      }
      Advance(text, pattern, i, needleIndex, |needle|);
      if haystack[haystackIndex] == needleReversed[needleIndex] {
        needleIndex := needleIndex + 1;
      }
      Outcome(text, pattern, i + 1, needleIndex);
      if needleIndex == |needle| {
        forall q | haystackIndex < q
          ensures !OccursAt(haystack, needle, q)
        {
          if q <= |haystack| {
            ReversedMatchIsOccurrence(haystack, needle, |haystack| - q);
          }
        }
        ReversedMatchIsOccurrence(haystack, needle, i + 1);
        return Some(haystackIndex), fallbacks;
      }
      haystackIndex := haystackIndex - 1;
    }
    forall q
      ensures !OccursAt(haystack, needle, q)
    {
      if 0 <= q <= |haystack| {
        ReversedMatchIsOccurrence(haystack, needle, |haystack| - q);
      }
    }
    return None, fallbacks;
  }
}
