/**
 Levenshtein edit distance, which search.go takes from a library
 (`levenshtein.ComputeDistance`) that is not part of this model. It is defined
 here by the classic recurrence over the first characters of both strings, and
 proved to be the least number of single-character insertions, deletions and
 substitutions that turn one string into the other. The library compares runes;
 a Dafny `char` stands for one rune.
 */
module Levenshtein {

  function Min3(x: nat, y: nat, z: nat): nat {
    if x <= y && x <= z then x else if y <= z then y else z
  }

  function Max(x: nat, y: nat): nat {
    if x <= y then y else x
  }

  /** Cost of turning character `x` into character `y` in place. */
  function SubstitutionCost(x: char, y: char): nat {
    if x == y then 0 else 1
  }

  /**
   The edit distance from `a` to `b`: deleting the first character of `a`,
   inserting the first character of `b`, or matching the two first characters
   (free when they are equal, one substitution otherwise), whichever leads to
   fewer edits.
   */
  function Distance(a: string, b: string): nat
    decreases |a| + |b|
  {
    if a == [] then |b|
    else if b == [] then |a|
    else Min3(Distance(a[1..], b) + 1,
              Distance(a, b[1..]) + 1,
              Distance(a[1..], b[1..]) + SubstitutionCost(a[0], b[0]))
  }

  /**
   The edit distance is at least the difference of the lengths and at most the
   longer length.
   */
  lemma {:induction false} DistanceBounds(a: string, b: string)
    ensures |a| - |b| <= Distance(a, b) && |b| - |a| <= Distance(a, b)
    ensures Distance(a, b) <= Max(|a|, |b|)
    decreases |a| + |b|
  {
    if a != [] && b != [] {
      DistanceBounds(a[1..], b);
      DistanceBounds(a, b[1..]);
      DistanceBounds(a[1..], b[1..]);
    }
  }

  /** The edit distance is zero exactly between equal strings. */
  lemma {:induction false} DistanceZeroIffEqual(a: string, b: string)
    ensures Distance(a, b) == 0 <==> a == b
    decreases |a| + |b|
  {
    if a != [] && b != [] {
      DistanceZeroIffEqual(a[1..], b[1..]);
      assert a == [a[0]] + a[1..] && b == [b[0]] + b[1..];
    }
  }

  /**
   One step of an edit script, read left to right against the source string:
   keep its next character, replace it, insert a character before it, or
   delete it.
   */
  datatype EditOp = Keep | Substitute(c: char) | Insert(c: char) | Delete

  /** The script `ops` turns `a` into `b`. */
  predicate Transforms(ops: seq<EditOp>, a: string, b: string)
    decreases ops
  {
    if ops == [] then a == [] && b == []
    else match ops[0]
      case Keep =>
        a != [] && b != [] && a[0] == b[0] && Transforms(ops[1..], a[1..], b[1..])
      case Substitute(c) =>
        a != [] && b != [] && b[0] == c && Transforms(ops[1..], a[1..], b[1..])
      case Insert(c) =>
        b != [] && b[0] == c && Transforms(ops[1..], a, b[1..])
      case Delete =>
        a != [] && Transforms(ops[1..], a[1..], b)
  }

  /** The number of edits in `ops`: every step except `Keep` costs one. */
  function Cost(ops: seq<EditOp>): nat {
    if ops == [] then 0 else (if ops[0].Keep? then 0 else 1) + Cost(ops[1..])
  }

  /**
   An edit script that turns `a` into `b` with exactly `Distance(a, b)` edits:
   the distance is attained.
   */
  function Script(a: string, b: string): (ops: seq<EditOp>)
    ensures Transforms(ops, a, b)
    ensures Cost(ops) == Distance(a, b)
    decreases |a| + |b|
  {
    if a == [] && b == [] then []
    else if a == [] then
      [Insert(b[0])] + Script(a, b[1..])
    else if b == [] then
      [Delete] + Script(a[1..], b)
    else
      var del := Distance(a[1..], b) + 1;
      var ins := Distance(a, b[1..]) + 1;
      var sub := Distance(a[1..], b[1..]) + SubstitutionCost(a[0], b[0]);
      if del <= ins && del <= sub then
        [Delete] + Script(a[1..], b)
      else if ins <= sub then
        [Insert(b[0])] + Script(a, b[1..])
      else
        var step := if a[0] == b[0] then Keep else Substitute(b[0]);
        [step] + Script(a[1..], b[1..])
  }

  /** No edit script that turns `a` into `b` has fewer than `Distance(a, b)` edits. */
  lemma {:induction false} DistanceIsMinimal(ops: seq<EditOp>, a: string, b: string)
    requires Transforms(ops, a, b)
    ensures Distance(a, b) <= Cost(ops)
    decreases ops
  {
    if ops != [] {
      match ops[0]
      case Keep =>
        DistanceIsMinimal(ops[1..], a[1..], b[1..]);
      case Substitute(_) =>
        DistanceIsMinimal(ops[1..], a[1..], b[1..]);
      case Insert(_) =>
        DistanceIsMinimal(ops[1..], a, b[1..]);
      case Delete =>
        DistanceIsMinimal(ops[1..], a[1..], b);
    }
  }
}
