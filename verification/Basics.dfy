/** Shared vocabulary: optional results, fixed-width integers, sequences inside others and without repeats. */
module Basics {

  /** A result that may be absent: a refusal, a parse failure, a missing key. */
  datatype Option<+T> = None | Some(value: T) {
    predicate IsFailure() {
      None?
    }

    function PropagateFailure<U>(): Option<U>
      requires None?
    {
      None
    }

    function Extract(): T
      requires Some?
    {
      value
    }
  }

  const INT64_MAX: int := 0x7FFF_FFFF_FFFF_FFFF
  const INT64_MIN: int := -0x8000_0000_0000_0000
  const TWO_64: int := 0x1_0000_0000_0000_0000

  newtype int64 = x: int | -0x8000_0000_0000_0000 <= x <= 0x7FFF_FFFF_FFFF_FFFF

  /** `part` stands inside `whole`, beginning at index `at`. */
  predicate Occurs<T(==)>(whole: seq<T>, at: nat, part: seq<T>) {
    at + |part| <= |whole| && whole[at..at + |part|] == part
  }

  lemma OccursSplit<T>(whole: seq<T>, at: nat, left: seq<T>, right: seq<T>)
    requires Occurs(whole, at, left + right)
    ensures Occurs(whole, at, left)
    ensures Occurs(whole, at + |left|, right)
  {
    var found := whole[at..at + |left + right|];
    assert whole[at..at + |left|] == found[..|left|];
    assert whole[at + |left|..at + |left| + |right|] == found[|left|..];
  }

  lemma OccursAt<T>(whole: seq<T>, at: nat, part: seq<T>, k: nat)
    requires Occurs(whole, at, part) && k < |part|
    ensures whole[at + k] == part[k]
  {
    assert whole[at..at + |part|][k] == part[k];
  }

  lemma OccursWhole<T>(whole: seq<T>)
    ensures Occurs(whole, 0, whole)
  {
    assert whole[0..|whole|] == whole;
  }

  predicate NoRepeat<T(==)>(s: seq<T>) {
    forall i, j :: 0 <= i < j < |s| ==> s[i] != s[j]
  }

  function Members<T>(s: seq<T>): set<T> {
    set x | x in s
  }

  /** Distinct members of a set are no more than the set has. */
  lemma {:induction false} DistinctWithin<T>(s: seq<T>, all: set<T>)
    requires NoRepeat(s) && forall x <- s :: x in all
    ensures |s| <= |all|
    decreases |s|
  {
    if s != [] {
      var init, last := s[..|s| - 1], s[|s| - 1];
      forall x <- init ensures x in all - {last} {
        var i :| 0 <= i < |init| && init[i] == x;
        assert s[i] == x;
      }
      DistinctWithin(init, all - {last});
    }
  }
}
