// Replacing every occurrence of a text: what the replacement functions of arduino/cores/String.cpp compute.
module ReplaceSpec {
  import opened Common
  import opened Search

  /** The position of the first match; an empty match is never found. */
  function Found(s: seq<byte>, target: seq<byte>): (r: Option<nat>)
    ensures r.Some? ==> 0 < |target| && OccursAt(s, target, r.value)
  {
    if |target| == 0 then None else First(s, target)
  }

  /** Leftmost matches are replaced one after the other; replaced text is not searched again. */
  function Replaced(s: seq<byte>, target: seq<byte>, replacement: seq<byte>): seq<byte>
    decreases |s|
  {
    match Found(s, target)
    case None => s
    case Some(p) => s[..p] + replacement + Replaced(s[p + |target|..], target, replacement)
  }

  /** The number of matches. */
  function Matches(s: seq<byte>, target: seq<byte>): nat
    decreases |s|
  {
    match Found(s, target)
    case None => 0
    case Some(p) => 1 + Matches(s[p + |target|..], target)
  }

  /** The text between the matches. */
  function Parts(s: seq<byte>, target: seq<byte>): (r: seq<seq<byte>>)
    ensures 0 < |r|
    decreases |s|
  {
    match Found(s, target)
    case None => [s]
    case Some(p) => [s[..p]] + Parts(s[p + |target|..], target)
  }

  function Join(parts: seq<seq<byte>>, sep: seq<byte>): seq<byte>
    requires 0 < |parts|
  {
    if |parts| == 1 then parts[0] else parts[0] + sep + Join(parts[1..], sep)
  }

  /** `part` ends where the first match behind it starts. */
  ghost predicate EndsAtMatch(part: seq<byte>, target: seq<byte>)
  {
    IsFirst(part + target, target, Some(|part|))
  }

  /** Every part but the last ends where a match starts, and the last one holds none. */
  ghost predicate Greedy(parts: seq<seq<byte>>, target: seq<byte>)
  {
    && 0 < |parts|
    && (forall i :: 0 <= i < |parts| - 1 ==> EndsAtMatch(parts[i], target))
    && IsFirst(parts[|parts| - 1], target, None)
  }

  /** A match is found at the end of a part whatever follows. */
  lemma MatchSeenAhead(part: seq<byte>, target: seq<byte>, rest: seq<byte>)
    requires 0 < |target|
    ensures EndsAtMatch(part, target) <==> IsFirst(part + target + rest, target, Some(|part|))
  {
    var s, t := part + target, part + target + rest;
    forall q | 0 <= q <= |part|
      ensures OccursAt(s, target, q) <==> OccursAt(t, target, q)
    {
      assert s[q..q + |target|] == t[q..q + |target|];
    }
  }

  /** The parts of a text, joined by the match, are the text; joined by the replacement they are the result. */
  lemma {:induction false} PartsJoin(s: seq<byte>, target: seq<byte>, replacement: seq<byte>)
    ensures Join(Parts(s, target), replacement) == Replaced(s, target, replacement)
    ensures Join(Parts(s, target), target) == s
    ensures |Parts(s, target)| == Matches(s, target) + 1
    decreases |s|
  {
    hide Found, OccursAt;
    FoundFits(s, target);
    FoundCuts(s, target);
    var r := Found(s, target);
    if r.Some? {
      var rest := s[r.value + |target|..];
      PartsJoin(rest, target, replacement);
      assert Parts(s, target)[1..] == Parts(rest, target);
    }
  }

  lemma FoundCuts(s: seq<byte>, target: seq<byte>)
    ensures var r := Found(s, target);
            r.Some? ==> r.value + |target| <= |s| && s == s[..r.value] + target + s[r.value + |target|..]
  {
    hide First;
  }

  /** They are cut greedily. */
  lemma {:induction false} PartsGreedy(s: seq<byte>, target: seq<byte>)
    requires 0 < |target|
    ensures Greedy(Parts(s, target), target)
    decreases |s|
  {
    hide Found, OccursAt, IsFirst, EndsAtMatch;
    FoundIsFirst(s, target);
    FoundCuts(s, target);
    var r := Found(s, target);
    if r.Some? {
      var rest := s[r.value + |target|..];
      PartsGreedy(rest, target);
      MatchSeenAhead(s[..r.value], target, rest);
      hide Greedy;
      GreedyGrows(s[..r.value], Parts(rest, target), target);
    }
  }

  lemma FoundIsFirst(s: seq<byte>, target: seq<byte>)
    requires 0 < |target|
    ensures IsFirst(s, target, Found(s, target))
  {
  }

  lemma GreedyGrows(part: seq<byte>, parts: seq<seq<byte>>, target: seq<byte>)
    requires Greedy(parts, target) && EndsAtMatch(part, target)
    ensures Greedy([part] + parts, target)
  {
    hide IsFirst, EndsAtMatch;
    var all := [part] + parts;
    forall i | 0 <= i < |all| - 1
      ensures EndsAtMatch(all[i], target)
    {
      if 0 < i {
        assert all[i] == parts[i - 1];
      }
    }
  }

  /** There is only one greedy way to cut a text at matches. */
  lemma {:induction false} GreedyIsUnique(parts: seq<seq<byte>>, target: seq<byte>)
    requires 0 < |target| && Greedy(parts, target)
    ensures Parts(Join(parts, target), target) == parts
    decreases |parts|
  {
    var s := Join(parts, target);
    FoundIsFirst(s, target);
    if |parts| == 1 {
      FirstIsUnique(s, target, Found(s, target), None);
    } else {
      var rest := Join(parts[1..], target);
      MatchSeenAhead(parts[0], target, rest);
      FirstIsUnique(s, target, Found(s, target), Some(|parts[0]|));
      hide IsFirst, First, EndsAtMatch;
      assert s[|parts[0]| + |target|..] == rest && s[..|parts[0]|] == parts[0];
      assert forall i :: 0 <= i < |parts| - 2 ==> parts[1..][i] == parts[i + 1];
      GreedyIsUnique(parts[1..], target);
    }
  }

  /** The length of the result. */
  lemma {:induction false} ReplacedLength(s: seq<byte>, target: seq<byte>, replacement: seq<byte>)
    ensures |Replaced(s, target, replacement)| == |s| + Matches(s, target) * (|replacement| - |target|)
    decreases |s|
  {
    hide First, OccursAt;
    var r := Found(s, target);
    if r.Some? {
      FoundFits(s, target);
      ReplacedLength(s[r.value + |target|..], target, replacement);
      var k, d := Matches(s[r.value + |target|..], target), |replacement| - |target|;
      assert (1 + k) * d == d + k * d;
    }
  }

  lemma FoundFits(s: seq<byte>, target: seq<byte>)
    ensures var r := Found(s, target);
            r.Some? ==> 0 < |target| && r.value + |target| <= |s|
  {
  }

  /** One step of replacing. */
  lemma ReplaceStep(s: seq<byte>, target: seq<byte>, replacement: seq<byte>)
    ensures var r := Found(s, target);
            && (r.None? ==> Replaced(s, target, replacement) == s && Matches(s, target) == 0)
            && (r.Some? ==>
                  && 0 < |target| && r.value + |target| <= |s|
                  && Replaced(s, target, replacement) == s[..r.value] + replacement + Replaced(s[r.value + |target|..], target, replacement)
                  && Matches(s, target) == 1 + Matches(s[r.value + |target|..], target))
  {
    FoundFits(s, target);
  }
}
