/**
 The approximate-match query of go-names (search.go): the edit distance from
 the needle to every haystack item is recorded in a map keyed by item while a
 running minimum, started at a sentinel, is kept; then every recorded item at
 the minimum distance is printed, followed by the minimum. The printed items
 are returned here in print order (Go's map iteration order, modelled by an
 arbitrary choice) together with the minimum.
 */
module Search {
  import opened Sequences
  import opened Levenshtein

  /** The starting value of the running minimum, reported for an empty haystack. */
  const Sentinel: nat := 100

  method Search(needle: string, haystack: seq<string>) returns (printed: seq<string>, min: nat)
    // min is the smaller of the sentinel and the least distance to an item
    ensures min <= Sentinel
    ensures forall item :: item in haystack ==> min <= Distance(needle, item)
    ensures min < Sentinel ==> exists item :: item in haystack && Distance(needle, item) == min
    // exactly the items at distance min are printed, each once
    ensures NoDuplicates(printed)
    ensures forall r :: r in printed <==> r in haystack && Distance(needle, r) == min
    // the edge cases
    ensures haystack == [] ==> printed == [] && min == Sentinel
    ensures (exists item :: item in haystack && Distance(needle, item) < Sentinel) ==> printed != []
    ensures needle in haystack ==> min == 0 && printed == [needle]
  {
    var res: map<string, nat> := map[];
    min := Sentinel;
    for i := 0 to |haystack|
      invariant Recorded(needle, haystack[..i], res)
      invariant RunningMin(res, min)
    {
      var item := haystack[i];
      var dist := Distance(needle, item);
      if dist < min {
        min := dist;
      }
      ghost var before := res;
      assert haystack[..i + 1] == haystack[..i] + [item];
      res := res[item := dist];
      if min == dist {
        assert item in res && res[item] == min;
      } else if min < Sentinel {
        ghost var k :| k in before && before[k] == min;
        assert k in res && res[k] == min;
      }
    }
    assert haystack[..|haystack|] == haystack;

    printed := [];
    var pending := res.Keys;
    while pending != {}
      invariant pending <= res.Keys
      invariant |printed| + |pending| <= |res.Keys|
      invariant NoDuplicates(printed)
      invariant forall r :: r in printed <==> r in res && r !in pending && res[r] == min
      decreases pending
    {
      var result :| result in pending;
      if res[result] == min {
        printed := printed + [result];
      }
      pending := pending - {result};
    }
    Outcome(needle, haystack, res, min, printed);
  }

  /** `res` maps each of `items` to its distance from `needle`, and holds nothing else. */
  ghost predicate Recorded(needle: string, items: seq<string>, res: map<string, nat>) {
    && res.Keys == Elems(items)
    && forall k :: k in res ==> res[k] == Distance(needle, k)
  }

  /**
   `min` is the smaller of the sentinel and the least value recorded in `res`.
   */
  ghost predicate RunningMin(res: map<string, nat>, min: nat) {
    && min <= Sentinel
    && (forall k :: k in res ==> min <= res[k])
    && (min < Sentinel ==> exists k :: k in res && res[k] == min)
  }

  /**
   What the two loops of `search` leave behind, restated over the haystack:
   the distance map and the running minimum after the first, the items at the
   minimum printed once each by the second.
   */
  lemma Outcome(needle: string, haystack: seq<string>, res: map<string, nat>, min: nat,
                printed: seq<string>)
    requires Recorded(needle, haystack, res)
    requires RunningMin(res, min)
    requires |printed| <= |res.Keys|
    requires NoDuplicates(printed)
    requires forall r :: r in printed <==> r in res && res[r] == min
    ensures min <= Sentinel
    ensures forall item :: item in haystack ==> min <= Distance(needle, item)
    ensures min < Sentinel ==> exists item :: item in haystack && Distance(needle, item) == min
    ensures forall r :: r in printed <==> r in haystack && Distance(needle, r) == min
    ensures haystack == [] ==> printed == [] && min == Sentinel
    ensures (exists item :: item in haystack && Distance(needle, item) < Sentinel) ==> printed != []
    ensures needle in haystack ==> min == 0 && printed == [needle]
  {
    assert forall k :: k in res <==> k in haystack;
    if needle in haystack {
      ExactMatch(needle, haystack, printed, min);
    }
  }

  /**
   When the needle itself is in the haystack, a search outcome has minimum 0
   and prints the needle alone: distance 0 holds only between equal strings.
   */
  lemma ExactMatch(needle: string, haystack: seq<string>, printed: seq<string>, min: nat)
    requires needle in haystack
    requires forall item :: item in haystack ==> min <= Distance(needle, item)
    requires NoDuplicates(printed)
    requires forall r :: r in printed <==> r in haystack && Distance(needle, r) == min
    ensures min == 0 && printed == [needle]
  {
    DistanceZeroIffEqual(needle, needle);
    forall r | r in printed
      ensures r == needle
    {
      DistanceZeroIffEqual(needle, r);
    }
    assert Elems(printed) == {needle};
    DistinctSingleton(printed, needle);
  }
}
