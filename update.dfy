/**
 The harvesting side of go-names (update.go): the Centrum adapter's
 whitespace filter, the drain of the merged name stream into a slice, and
 `unique`, which turns that slice into the persisted dataset.

 The network fetch, the character-set conversion, the HTML selection and the
 goroutine fan-in are not modelled: the adapter's filter starts from the
 tokens the HTML selection extracted, and the update starts from the items the
 merged channel delivered, in arrival order.
 */
module Update {
  import opened Sequences

  /** The persisted document: its single field holds the list of names. */
  datatype Dataset = Dataset(names: seq<string>)

  /** `strings.Contains(name, " ")`: the token holds a space character. */
  predicate HasSpace(name: string) {
    ' ' in name
  }

  /**
   The tokens the Centrum adapter sends on its channel, in document order:
   those that hold no space, unchanged.
   */
  function Spaceless(tokens: seq<string>): seq<string> {
    if tokens == [] then []
    else (if HasSpace(tokens[0]) then [] else [tokens[0]]) + Spaceless(tokens[1..])
  }

  /**
   The adapter sends a token exactly when the document holds it and it has no
   space: in particular it never sends a token with a space, and sends no more
   tokens than the document holds.
   */
  lemma {:induction false} SpacelessMembers(tokens: seq<string>)
    ensures forall n :: n in Spaceless(tokens) <==> n in tokens && !HasSpace(n)
    ensures |Spaceless(tokens)| <= |tokens|
  {
    if tokens != [] {
      SpacelessMembers(tokens[1..]);
      assert tokens == [tokens[0]] + tokens[1..];
    }
  }

  /**
   Filtering a document split in two is filtering each part: tokens keep their
   document order.
   */
  lemma {:induction false} SpacelessAppend(a: seq<string>, b: seq<string>)
    ensures Spaceless(a + b) == Spaceless(a) + Spaceless(b)
  {
    if a != [] {
      SpacelessAppend(a[1..], b);
      assert (a + b)[1..] == a[1..] + b;
    } else {
      assert a + b == b;
    }
  }

  /** A document whose tokens hold no space is sent whole and in order. */
  lemma {:induction false} SpacelessKeepsClean(tokens: seq<string>)
    requires forall n :: n in tokens ==> !HasSpace(n)
    ensures Spaceless(tokens) == tokens
  {
    if tokens != [] {
      SpacelessKeepsClean(tokens[1..]);
      assert tokens == [tokens[0]] + tokens[1..];
    }
  }

  /**
   The `Each` callback of `scrapeCentrum`, run over the extracted tokens in
   document order: a token is sent on the channel unless it holds a space.
   `sent` is what the channel receives.
   */
  method ScrapeCentrum(tokens: seq<string>) returns (sent: seq<string>)
    ensures sent == Spaceless(tokens)
  {
    sent := [];
    for i := 0 to |tokens|
      invariant sent == Spaceless(tokens[..i])
    {
      var name := tokens[i];
      if !HasSpace(name) {
        sent := sent + [name];
      }
      SpacelessAppend(tokens[..i], [name]);
      assert tokens[..i + 1] == tokens[..i] + [name];
    }
    assert tokens[..|tokens|] == tokens;
  }

  /** `u` is a deduplication of `s`: the same names, each exactly once. */
  ghost predicate Deduplicates(u: seq<string>, s: seq<string>) {
    NoDuplicates(u) && forall v :: v in u <==> v in s
  }

  /**
   `unique`: every input string is inserted into a map used as a set, and the
   map's keys are then copied into a fresh slice in the map's iteration order,
   which Go leaves unspecified (modelled by an arbitrary choice).
   */
  method Unique(slice: seq<string>) returns (uniqSlice: seq<string>)
    ensures NoDuplicates(uniqSlice)
    ensures forall v :: v in uniqSlice <==> v in slice
    ensures |uniqSlice| == |Elems(slice)| <= |slice|
    ensures slice == [] ==> uniqSlice == []
  {
    var uniqMap: set<string> := {};
    for i := 0 to |slice|
      invariant uniqMap == Elems(slice[..i])
    {
      assert slice[..i + 1] == slice[..i] + [slice[i]];
      uniqMap := uniqMap + {slice[i]};
    }
    assert slice[..|slice|] == slice;

    uniqSlice := [];
    var pending := uniqMap;
    while pending != {}
      invariant NoDuplicates(uniqSlice)
      invariant Elems(uniqSlice) !! pending
      invariant Elems(uniqSlice) + pending == uniqMap
      invariant |uniqSlice| + |pending| == |uniqMap|
      decreases pending
    {
      var v :| v in pending;
      uniqSlice := uniqSlice + [v];
      pending := pending - {v};
    }
    assert forall v :: v in uniqSlice <==> v in Elems(uniqSlice);
    ElemsBound(slice);
  }

  /**
   `unique` is determined up to order: any two deduplications of the same
   slice are permutations of each other. Two harvests that drain the same
   names therefore store the same dataset up to order.
   */
  lemma UniqueUpToOrder(s: seq<string>, u1: seq<string>, u2: seq<string>)
    requires Deduplicates(u1, s) && Deduplicates(u2, s)
    ensures multiset(u1) == multiset(u2)
  {
    assert Elems(u1) == Elems(u2);
    SameElemsPermutation(u1, u2);
  }

  /**
   `unique` is idempotent: deduplicating its own output gives back the same
   names, each once, up to order.
   */
  lemma UniqueIdempotent(s: seq<string>, once: seq<string>, twice: seq<string>)
    requires Deduplicates(once, s)
    requires Deduplicates(twice, once)
    ensures Deduplicates(twice, s)
    ensures multiset(twice) == multiset(once)
  {
    UniqueUpToOrder(once, once, twice);
  }

  /**
   The drain-and-store part of `runUpdate`: each item of the merged stream is
   appended to `names` in arrival order until the stream closes, and the
   dataset is `unique(names)`. `received` is what the merged channel delivered.
   */
  method RunUpdate(received: seq<string>) returns (data: Dataset)
    ensures Deduplicates(data.names, received)
    ensures |data.names| == |Elems(received)|
  {
    var names: seq<string> := [];
    for i := 0 to |received|
      invariant names == received[..i]
    {
      names := names + [received[i]];
    }
    assert names == received;
    var uniq := Unique(names);
    data := Dataset(uniq);
  }
}
