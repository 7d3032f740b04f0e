/** Span accounting: accumulators, the open-span stack, and the reported tree. */
module RunMetrics {
  import opened Basics
  import opened Orders

  /** One accumulator: every span opened under one name below one parent. Times are nanoseconds. */
  datatype Accum = Accum(name: string, parent: Option<nat>, count: nat, inclusive: int, children: int)

  datatype Open = Open(start: int, accum: nat)

  function Clamp(n: int): nat {
    if n < 0 then 0 else n
  }

  // ----- The accumulators as a forest -----

  /** Every parent is an earlier accumulator. */
  predicate Forest(accums: seq<Accum>) {
    forall i | 0 <= i < |accums| && accums[i].parent.Some? :: accums[i].parent.value < i
  }

  predicate InRange(indices: seq<nat>, low: nat, n: nat) {
    forall k | 0 <= k < |indices| :: low <= indices[k] < n
  }

  /** The accumulators below `n` with the given parent, in order of creation. */
  function ChildrenBelow(accums: seq<Accum>, parent: Option<nat>, n: nat): (r: seq<nat>)
    requires n <= |accums|
    ensures InRange(r, 0, n)
  {
    if n == 0 then []
    else ChildrenBelow(accums, parent, n - 1) + (if accums[n - 1].parent == parent then [n - 1] else [])
  }

  lemma {:induction false} ChildrenExact(accums: seq<Accum>, parent: Option<nat>, n: nat)
    requires n <= |accums|
    ensures var r := ChildrenBelow(accums, parent, n);
            && (forall i: nat :: i in r <==> i < n && accums[i].parent == parent)
            && (forall i, j | 0 <= i < j < |r| :: r[i] < r[j])
            && (forall k | 0 <= k < |r| :: accums[r[k]].parent == parent)
    decreases n
  {
    if n > 0 {
      ChildrenExact(accums, parent, n - 1);
    }
  }

  function Children(accums: seq<Accum>, parent: Option<nat>): seq<nat> {
    ChildrenBelow(accums, parent, |accums|)
  }

  function InclusiveSum(accums: seq<Accum>, indices: seq<nat>): int
    requires InRange(indices, 0, |accums|)
  {
    if indices == [] then 0 else accums[indices[0]].inclusive + InclusiveSum(accums, indices[1..])
  }

  /** Each accumulator's recorded child time is the inclusive time of its children. */
  ghost predicate ChildTimesAdd(accums: seq<Accum>) {
    forall i | 0 <= i < |accums| :: accums[i].children == InclusiveSum(accums, Children(accums, Some(i)))
  }

  // ----- The tree -----

  datatype SpanStats = SpanStats(accum: Option<nat>, name: string, count: nat, inclusive: int, self: nat,
                                 children: seq<SpanStats>)

  function TotalSelf(t: SpanStats): int
    decreases t, |t.children|
  {
    t.self + TotalSelfs(t.children)
  }

  function TotalSelfs(ts: seq<SpanStats>): int
    decreases ts, |ts|
  {
    if ts == [] then 0 else TotalSelf(ts[0]) + TotalSelfs(ts[1..])
  }

  /** The accumulators reported in a tree, parents first. */
  function Reported(t: SpanStats): seq<nat>
    decreases t, |t.children|
  {
    (if t.accum.Some? then [t.accum.value] else []) + ReportedIn(t.children)
  }

  function ReportedIn(ts: seq<SpanStats>): seq<nat>
    decreases ts, |ts|
  {
    if ts == [] then [] else Reported(ts[0]) + ReportedIn(ts[1..])
  }

  function ByName(accums: seq<Accum>): (nat, nat) -> bool {
    (a: nat, b: nat) => if a < |accums| && b < |accums| then LexLeq(accums[a].name, accums[b].name) else true
  }

  /** The tree below one accumulator, children in order of name. */
  function Build(accums: seq<Accum>, index: nat): SpanStats
    requires Forest(accums) && index < |accums|
    decreases |accums| - index, 1, 0
  {
    var a := accums[index];
    SpanStats(Some(index), a.name, a.count, a.inclusive, Clamp(a.inclusive - a.children),
              BuildAll(accums, SortedChildren(accums, Some(index)), index + 1))
  }

  function BuildAll(accums: seq<Accum>, indices: seq<nat>, low: nat): (ts: seq<SpanStats>)
    requires Forest(accums) && InRange(indices, low, |accums|)
    ensures |ts| == |indices|
    decreases |accums| - low, 2, |indices|
  {
    if indices == [] then [] else [Build(accums, indices[0])] + BuildAll(accums, indices[1..], low)
  }

  function SortedChildren(accums: seq<Accum>, parent: Option<nat>): (r: seq<nat>)
    ensures multiset(r) == multiset(Children(accums, parent))
    ensures InRange(r, 0, |accums|) && forall k | 0 <= k < |r| :: accums[r[k]].parent == parent
  {
    var children: seq<nat> := Children(accums, parent);
    var sorted: seq<nat> := Sort(children, ByName(accums));
    SameElements(children, sorted);
    ChildrenExact(accums, parent, |accums|);
    assert forall k | 0 <= k < |sorted| :: sorted[k] in sorted && sorted[k] in children;
    sorted
  }

  // ----- Self times add up to the inclusive time -----

  lemma {:induction false} SumJoin(accums: seq<Accum>, a: seq<nat>, b: seq<nat>)
    requires InRange(a, 0, |accums|) && InRange(b, 0, |accums|)
    ensures InclusiveSum(accums, a + b) == InclusiveSum(accums, a) + InclusiveSum(accums, b)
    decreases |a|
  {
    if a == [] {
      assert a + b == b;
    } else {
      SumJoin(accums, a[1..], b);
      assert (a + b)[1..] == a[1..] + b;
    }
  }

  lemma SumCons(accums: seq<Accum>, x: nat, s: seq<nat>)
    requires x < |accums| && InRange(s, 0, |accums|)
    ensures InRange([x] + s, 0, |accums|)
    ensures InclusiveSum(accums, [x] + s) == accums[x].inclusive + InclusiveSum(accums, s)
  {
    assert ([x] + s)[1..] == s;
  }

  lemma SumWithout(accums: seq<Accum>, b: seq<nat>, k: nat)
    requires InRange(b, 0, |accums|) && k < |b|
    ensures InRange(Without(b, k), 0, |accums|)
    ensures InclusiveSum(accums, b) == accums[b[k]].inclusive + InclusiveSum(accums, Without(b, k))
  {
    hide InclusiveSum;
    var front, back := b[..k], b[k + 1..];
    assert b == front + ([b[k]] + back);
    SumJoin(accums, front, back);
    SumJoin(accums, front, [b[k]] + back);
    SumCons(accums, b[k], back);
  }

  /** The order of addition does not matter. */
  lemma {:induction false} SumPermuted(accums: seq<Accum>, a: seq<nat>, b: seq<nat>)
    requires InRange(a, 0, |accums|) && InRange(b, 0, |accums|) && multiset(a) == multiset(b)
    ensures InclusiveSum(accums, a) == InclusiveSum(accums, b)
    decreases |a|
  {
    hide Without;
    SameElements(a, b);
    if a == [] {
      assert |multiset(b)| == 0;
    } else {
      assert a[0] in b;
      var k :| 0 <= k < |b| && b[k] == a[0];
      MultisetWithout(b, k);
      assert a == [a[0]] + a[1..];
      SumWithout(accums, b, k);
      SumPermuted(accums, a[1..], Without(b, k));
    }
  }

  /** No accumulator's children took longer than it did. */
  predicate Unclamped(accums: seq<Accum>) {
    forall i | 0 <= i < |accums| :: accums[i].children <= accums[i].inclusive
  }

  lemma SelfHere(accums: seq<Accum>, index: nat)
    requires Forest(accums) && index < |accums|
    ensures TotalSelf(Build(accums, index)) ==
            Clamp(accums[index].inclusive - accums[index].children)
            + TotalSelfs(BuildAll(accums, SortedChildren(accums, Some(index)), index + 1))
  {
    hide SortedChildren, BuildAll, TotalSelfs;
  }

  lemma {:induction false} SelfTimesAdd(accums: seq<Accum>, index: nat)
    requires Forest(accums) && ChildTimesAdd(accums) && Unclamped(accums) && index < |accums|
    ensures TotalSelf(Build(accums, index)) == accums[index].inclusive
    decreases |accums| - index, 1, 0
  {
    hide SortedChildren, InclusiveSum, Build, TotalSelf, BuildAll, TotalSelfs;
    SelfHere(accums, index);
    var sorted := SortedChildren(accums, Some(index));
    SelfTimesAddAll(accums, sorted, index + 1);
    SumPermuted(accums, sorted, Children(accums, Some(index)));
  }

  lemma {:induction false} SelfTimesAddAll(accums: seq<Accum>, indices: seq<nat>, low: nat)
    requires Forest(accums) && ChildTimesAdd(accums) && Unclamped(accums) && InRange(indices, low, |accums|)
    ensures TotalSelfs(BuildAll(accums, indices, low)) == InclusiveSum(accums, indices)
    decreases |accums| - low, 2, |indices|
  {
    hide ChildTimesAdd, Unclamped, Build;
    if indices != [] {
      SelfTimesAdd(accums, indices[0]);
      SelfTimesAddAll(accums, indices[1..], low);
      var ts := BuildAll(accums, indices, low);
      assert ts[1..] == BuildAll(accums, indices[1..], low);
    }
  }

  // ----- Each accumulator is reported once -----

  /** `r` is `i` or an ancestor of it. */
  predicate Under(accums: seq<Accum>, i: nat, r: nat)
    requires Forest(accums) && i < |accums|
    decreases i
  {
    i == r || (accums[i].parent.Some? && Under(accums, accums[i].parent.value, r))
  }

  lemma UnderSelf(accums: seq<Accum>, i: nat)
    requires Forest(accums) && i < |accums|
    ensures Under(accums, i, i)
  {}

  lemma {:induction false} UnderIsBelow(accums: seq<Accum>, i: nat, r: nat)
    requires Forest(accums) && i < |accums| && Under(accums, i, r)
    ensures r <= i
    decreases i
  {
    if i != r {
      UnderIsBelow(accums, accums[i].parent.value, r);
    }
  }

  /** How many of the listed accumulators are over `i`. */
  function CountOver(accums: seq<Accum>, i: nat, indices: seq<nat>): nat
    requires Forest(accums) && i < |accums|
  {
    if indices == [] then 0
    else (if Under(accums, i, indices[0]) then 1 else 0) + CountOver(accums, i, indices[1..])
  }

  lemma CountCons(x: nat, s: seq<nat>, i: nat)
    ensures multiset([x] + s)[i] == (if x == i then 1 else 0) + multiset(s)[i]
  {}

  lemma ReportedHere(accums: seq<Accum>, index: nat)
    requires Forest(accums) && index < |accums|
    ensures Reported(Build(accums, index)) ==
            [index] + ReportedIn(BuildAll(accums, SortedChildren(accums, Some(index)), index + 1))
  {
    hide SortedChildren, BuildAll, ReportedIn;
  }

  lemma {:induction false} ReportedCounts(accums: seq<Accum>, index: nat, i: nat)
    requires Forest(accums) && index < |accums| && i < |accums|
    ensures multiset(Reported(Build(accums, index)))[i] == if Under(accums, i, index) then 1 else 0
    decreases |accums| - index, 1, 0
  {
    hide SortedChildren, Under, CountOver, Build, Reported, ReportedIn, BuildAll;
    ReportedHere(accums, index);
    var sorted := SortedChildren(accums, Some(index));
    ReportedCountsAll(accums, sorted, index + 1, i);
    OneChildOver(accums, Some(index), i);
    CountCons(index, ReportedIn(BuildAll(accums, sorted, index + 1)), i);
    assert Under(accums, index, index) by { UnderSelf(accums, index); }
  }

  lemma {:induction false} ReportedCountsAll(accums: seq<Accum>, indices: seq<nat>, low: nat, i: nat)
    requires Forest(accums) && InRange(indices, low, |accums|) && i < |accums|
    ensures multiset(ReportedIn(BuildAll(accums, indices, low)))[i] == CountOver(accums, i, indices)
    decreases |accums| - low, 2, |indices|
  {
    hide Build, Under;
    if indices != [] {
      ReportedCounts(accums, indices[0], i);
      ReportedCountsAll(accums, indices[1..], low, i);
      var ts := BuildAll(accums, indices, low);
      assert ts[1..] == BuildAll(accums, indices[1..], low);
    }
  }

  /** Two accumulators with one parent are over `i` together only when they are the same. */
  lemma {:induction false} SiblingsApart(accums: seq<Accum>, i: nat, a: nat, b: nat)
    requires Forest(accums) && i < |accums| && a < |accums| && b < |accums| && accums[a].parent == accums[b].parent
    requires Under(accums, i, a) && Under(accums, i, b)
    ensures a == b
    decreases i
  {
    if i == a || i == b {
      var other := if i == a then b else a;
      if other != i {
        UnderIsBelow(accums, accums[i].parent.value, other);
      }
    } else {
      SiblingsApart(accums, accums[i].parent.value, a, b);
    }
  }

  /** Of distinct siblings at most one is over `i`. */
  lemma {:induction false} CountOverSiblings(accums: seq<Accum>, i: nat, indices: seq<nat>, parent: Option<nat>)
    requires Forest(accums) && i < |accums| && InRange(indices, 0, |accums|)
    requires forall k | 0 <= k < |indices| :: accums[indices[k]].parent == parent
    requires forall j, k | 0 <= j < k < |indices| :: indices[j] != indices[k]
    ensures CountOver(accums, i, indices) <= 1
    ensures CountOver(accums, i, indices) == 0 <==> forall k | 0 <= k < |indices| :: !Under(accums, i, indices[k])
    decreases |indices|
  {
    hide Under;
    if indices != [] {
      var rest := indices[1..];
      assert forall k | 0 <= k < |rest| :: rest[k] == indices[k + 1];
      CountOverSiblings(accums, i, rest, parent);
      if Under(accums, i, indices[0]) {
        forall k | 0 <= k < |rest| ensures !Under(accums, i, rest[k]) {
          if Under(accums, i, rest[k]) {
            SiblingsApart(accums, i, indices[0], rest[k]);
          }
        }
      }
    }
  }

  lemma SortedDistinct(accums: seq<Accum>, parent: Option<nat>)
    ensures var sorted := SortedChildren(accums, parent);
            forall j, k | 0 <= j < k < |sorted| :: sorted[j] != sorted[k]
  {
    var sorted, children := SortedChildren(accums, parent), Children(accums, parent);
    var p := FindRearrangement(sorted, children);
    ChildrenExact(accums, parent, |accums|);
    forall j, k | 0 <= j < k < |sorted| ensures sorted[j] != sorted[k] {
      assert sorted[j] == children[p[j]] && sorted[k] == children[p[k]] && p[j] != p[k];
    }
  }

  /** Every child is listed. */
  lemma ChildListed(accums: seq<Accum>, parent: Option<nat>, c: nat)
    requires c < |accums| && accums[c].parent == parent
    ensures exists k :: 0 <= k < |SortedChildren(accums, parent)| && SortedChildren(accums, parent)[k] == c
  {
    SameElements(SortedChildren(accums, parent), Children(accums, parent));
    ChildrenExact(accums, parent, |accums|);
    assert c in Children(accums, parent);
    assert c in SortedChildren(accums, parent);
  }

  lemma {:induction false} ChildOver(accums: seq<Accum>, i: nat, index: nat) returns (c: nat)
    requires Forest(accums) && i < |accums| && Under(accums, i, index) && i != index
    ensures c < |accums| && accums[c].parent == Some(index) && Under(accums, i, c)
    decreases i
  {
    if accums[i].parent.value == index {
      return i;
    }
    c := ChildOver(accums, accums[i].parent.value, index);
  }

  lemma {:induction false} OverThroughChild(accums: seq<Accum>, i: nat, c: nat, index: nat)
    requires Forest(accums) && i < |accums| && c < |accums| && Under(accums, i, c) && accums[c].parent == Some(index)
    ensures Under(accums, i, index) && i != index
    decreases i
  {
    UnderIsBelow(accums, i, c);
    if i != c {
      OverThroughChild(accums, accums[i].parent.value, c, index);
    } else {
      assert Under(accums, index, index);
    }
  }

  lemma {:induction false} RootOver(accums: seq<Accum>, i: nat) returns (r: nat)
    requires Forest(accums) && i < |accums|
    ensures r < |accums| && accums[r].parent == None && Under(accums, i, r)
    decreases i
  {
    if accums[i].parent.None? {
      return i;
    }
    r := RootOver(accums, accums[i].parent.value);
  }

  /** An accumulator below `index` is below exactly one of its children; any is below exactly one root. */
  lemma OneChildOver(accums: seq<Accum>, parent: Option<nat>, i: nat)
    requires Forest(accums) && i < |accums|
    ensures parent.Some? ==>
              CountOver(accums, i, SortedChildren(accums, parent)) ==
              if i != parent.value && Under(accums, i, parent.value) then 1 else 0
    ensures parent.None? ==> CountOver(accums, i, SortedChildren(accums, parent)) == 1
  {
    hide Under, CountOver, Children;
    var sorted := SortedChildren(accums, parent);
    SortedDistinct(accums, parent);
    CountOverSiblings(accums, i, sorted, parent);
    if parent.None? {
      var r := RootOver(accums, i);
      ChildListed(accums, parent, r);
    } else if i != parent.value && Under(accums, i, parent.value) {
      var c := ChildOver(accums, i, parent.value);
      ChildListed(accums, parent, c);
    } else {
      forall k | 0 <= k < |sorted| ensures !Under(accums, i, sorted[k]) {
        if Under(accums, i, sorted[k]) {
          OverThroughChild(accums, i, sorted[k], parent.value);
        }
      }
    }
  }

  lemma {:induction false} ReportedInRange(accums: seq<Accum>, index: nat)
    requires Forest(accums) && index < |accums|
    ensures InRange(Reported(Build(accums, index)), 0, |accums|)
    decreases |accums| - index, 1, 0
  {
    hide SortedChildren, Build, Reported, ReportedIn, BuildAll;
    ReportedHere(accums, index);
    ReportedInRangeAll(accums, SortedChildren(accums, Some(index)), index + 1);
  }

  lemma {:induction false} ReportedInRangeAll(accums: seq<Accum>, indices: seq<nat>, low: nat)
    requires Forest(accums) && InRange(indices, low, |accums|)
    ensures InRange(ReportedIn(BuildAll(accums, indices, low)), 0, |accums|)
    decreases |accums| - low, 2, |indices|
  {
    hide Build, Reported;
    if indices != [] {
      ReportedInRange(accums, indices[0]);
      ReportedInRangeAll(accums, indices[1..], low);
      assert BuildAll(accums, indices, low)[1..] == BuildAll(accums, indices[1..], low);
    }
  }

  // ----- Recording -----

  /** The lookup table finds each accumulator by parent and name. */
  predicate Keyed(accums: seq<Accum>, table: map<(Option<nat>, string), nat>) {
    && (forall i | 0 <= i < |accums| ::
          (accums[i].parent, accums[i].name) in table && table[(accums[i].parent, accums[i].name)] == i)
    && (forall key <- table ::
          table[key] < |accums| && accums[table[key]].parent == key.0 && accums[table[key]].name == key.1)
  }

  /** The accumulator of the innermost open span. */
  function Innermost(open: seq<Open>): Option<nat> {
    if open == [] then None else Some(open[|open| - 1].accum)
  }

  /** The accumulator below position `k` of the stack. */
  function ParentAt(open: seq<Open>, k: nat): Option<nat>
    requires k <= |open|
  {
    if k == 0 then None else Some(open[k - 1].accum)
  }

  /** Each open span's accumulator is a child of the one below it on the stack. */
  predicate Stacked(accums: seq<Accum>, open: seq<Open>) {
    && (forall k | 0 <= k < |open| :: open[k].accum < |accums|)
    && (forall k | 0 <= k < |open| :: StackedAt(accums, open, k))
  }

  predicate StackedAt(accums: seq<Accum>, open: seq<Open>, k: nat)
    requires k < |open|
  {
    open[k].accum < |accums| && accums[open[k].accum].parent == ParentAt(open, k)
  }

  /** Until when an open span has been the innermost one. */
  function Limit(open: seq<Open>, k: nat, clock: int): int
    requires k < |open|
  {
    if k + 1 < |open| then open[k + 1].start else clock
  }

  predicate OnStack(open: seq<Open>, i: nat) {
    exists k | 0 <= k < |open| :: open[k].accum == i
  }

  /** An open span's children have not outrun it, counting what it has run so far. */
  predicate RunsAt(accums: seq<Accum>, open: seq<Open>, k: nat, clock: int)
    requires k < |open|
  {
    && open[k].start <= Limit(open, k, clock) && open[k].accum < |accums|
    && accums[open[k].accum].children <= accums[open[k].accum].inclusive + Limit(open, k, clock) - open[k].start
  }

  /** Child time never outruns recorded time, counting what the open spans have run so far. */
  ghost predicate Timed(accums: seq<Accum>, open: seq<Open>, clock: int) {
    && (forall k | 0 <= k < |open| :: RunsAt(accums, open, k, clock))
    && (forall i: nat | i < |accums| :: OnStack(open, i) || accums[i].children <= accums[i].inclusive)
  }

  /** Accumulators rise along the stack, so no accumulator is on it twice. */
  lemma {:induction false} StackRises(accums: seq<Accum>, open: seq<Open>, j: nat, k: nat)
    requires Forest(accums) && Stacked(accums, open) && j < k < |open|
    ensures open[j].accum < open[k].accum
    decreases k
  {
    assert StackedAt(accums, open, k) && StackedAt(accums, open, k - 1);
    if j < k - 1 {
      StackRises(accums, open, j, k - 1);
    }
  }

  // ----- A new accumulator -----

  lemma {:induction false} ChildrenGrow(accums: seq<Accum>, a: Accum, parent: Option<nat>, n: nat)
    requires n <= |accums|
    ensures ChildrenBelow(accums + [a], parent, n) == ChildrenBelow(accums, parent, n)
    decreases n
  {
    if n > 0 {
      ChildrenGrow(accums, a, parent, n - 1);
    }
  }

  lemma {:induction false} SumGrows(accums: seq<Accum>, a: Accum, indices: seq<nat>)
    requires InRange(indices, 0, |accums|)
    ensures InclusiveSum(accums + [a], indices) == InclusiveSum(accums, indices)
    decreases |indices|
  {
    if indices != [] {
      SumGrows(accums, a, indices[1..]);
    }
  }

  lemma ChildrenAppend(accums: seq<Accum>, a: Accum, parent: Option<nat>)
    ensures Children(accums + [a], parent) == Children(accums, parent) + if a.parent == parent then [|accums|] else []
  {
    ChildrenGrow(accums, a, parent, |accums|);
  }

  lemma FreshAdds(accums: seq<Accum>, a: Accum, i: nat)
    requires a.inclusive == 0
    ensures InclusiveSum(accums + [a], Children(accums + [a], Some(i))) ==
            InclusiveSum(accums, Children(accums, Some(i)))
  {
    hide InclusiveSum, Children;
    var more, n, before := accums + [a], |accums|, Children(accums, Some(i));
    ChildrenAppend(accums, a, Some(i));
    assert InRange(before, 0, n) by { ChildrenInRange(accums, Some(i)); }
    SumGrows(accums, a, before);
    SumNone(more);
    if a.parent == Some(i) {
      SumCons(more, n, []);
      SumJoin(more, before, [n]);
      assert [n] + [] == [n];
    } else {
      assert before + [] == before;
    }
  }

  lemma ChildrenInRange(accums: seq<Accum>, parent: Option<nat>)
    ensures InRange(Children(accums, parent), 0, |accums|)
  {}

  /** A fresh accumulator adds nothing to its parent's child time. */
  lemma FreshAccum(accums: seq<Accum>, a: Accum)
    requires Forest(accums) && ChildTimesAdd(accums) && a.inclusive == 0 && a.children == 0
    requires a.parent.Some? ==> a.parent.value < |accums|
    ensures Forest(accums + [a]) && ChildTimesAdd(accums + [a])
  {
    hide InclusiveSum, ChildrenBelow;
    var more, n := accums + [a], |accums|;
    forall i | 0 <= i < |more| ensures more[i].children == InclusiveSum(more, Children(more, Some(i))) {
      FreshAdds(accums, a, i);
      if i == n {
        NoChildrenYet(accums, n, n);
        SumNone(accums);
      }
    }
  }

  lemma SumNone(accums: seq<Accum>)
    ensures InclusiveSum(accums, []) == 0
  {}

  lemma {:induction false} NoChildrenYet(accums: seq<Accum>, i: nat, n: nat)
    requires Forest(accums) && i >= |accums| && n <= |accums|
    ensures ChildrenBelow(accums, Some(i), n) == []
    decreases n
  {
    if n > 0 {
      NoChildrenYet(accums, i, n - 1);
      assert accums[n - 1].parent != Some(i);
    }
  }

  // ----- Closing a span -----

  /** Adds a finished occurrence to its accumulator, and its time to the parent's child time. */
  function AfterClosing(accums: seq<Accum>, a: nat, wall: nat): seq<Accum>
    requires Forest(accums) && a < |accums|
  {
    var own := accums[a].(count := accums[a].count + 1, inclusive := accums[a].inclusive + wall);
    var after := accums[a := own];
    if own.parent.None? then after
    else
      var p := own.parent.value;
      after[p := after[p].(children := after[p].children + wall)]
  }

  lemma ClosedFields(accums: seq<Accum>, a: nat, wall: nat)
    requires Forest(accums) && a < |accums|
    ensures var after := AfterClosing(accums, a, wall);
            && |after| == |accums|
            && (forall i | 0 <= i < |accums| ::
                  && after[i].parent == accums[i].parent && after[i].name == accums[i].name
                  && after[i].count == accums[i].count + (if i == a then 1 else 0)
                  && after[i].inclusive == accums[i].inclusive + (if i == a then wall else 0)
                  && after[i].children ==
                     accums[i].children + if accums[a].parent == Some(i) then wall else 0)
  {}

  lemma ClosedAt(accums: seq<Accum>, a: nat, wall: nat, i: nat)
    requires Forest(accums) && a < |accums| && i < |accums|
    ensures var after := AfterClosing(accums, a, wall);
            && |after| == |accums|
            && after[i].inclusive == accums[i].inclusive + (if i == a then wall else 0)
            && after[i].children == accums[i].children + if accums[a].parent == Some(i) then wall else 0
  {
    hide AfterClosing;
    ClosedFields(accums, a, wall);
  }

  lemma TopParent(accums: seq<Accum>, open: seq<Open>)
    requires Forest(accums) && Stacked(accums, open) && open != []
    ensures open[|open| - 1].accum < |accums|
    ensures accums[open[|open| - 1].accum].parent == ParentAt(open, |open| - 1)
    ensures accums[open[|open| - 1].accum].parent != Some(open[|open| - 1].accum)
  {
    assert StackedAt(accums, open, |open| - 1);
  }

  lemma {:induction false} SameChildren(accums: seq<Accum>, after: seq<Accum>, parent: Option<nat>, n: nat)
    requires |after| == |accums| && n <= |accums| && forall i | 0 <= i < |accums| :: after[i].parent == accums[i].parent
    ensures ChildrenBelow(after, parent, n) == ChildrenBelow(accums, parent, n)
    decreases n
  {
    if n > 0 {
      SameChildren(accums, after, parent, n - 1);
    }
  }

  /** A sum over distinct accumulators rises with the one that is closed. */
  lemma {:induction false} SumRises(accums: seq<Accum>, after: seq<Accum>, a: nat, wall: nat, indices: seq<nat>)
    requires |after| == |accums| && InRange(indices, 0, |accums|)
    requires forall i | 0 <= i < |accums| :: after[i].inclusive == accums[i].inclusive + if i == a then wall else 0
    requires forall j, k | 0 <= j < k < |indices| :: indices[j] < indices[k]
    ensures InclusiveSum(after, indices) == InclusiveSum(accums, indices) + if a in indices then wall else 0
    decreases |indices|
  {
    if indices != [] {
      SumRises(accums, after, a, wall, indices[1..]);
      assert indices == [indices[0]] + indices[1..];
      assert indices[0] == a ==> a !in indices[1..];
    }
  }

  lemma ClosingAdds(accums: seq<Accum>, a: nat, wall: nat)
    requires Forest(accums) && ChildTimesAdd(accums) && a < |accums|
    ensures Forest(AfterClosing(accums, a, wall)) && ChildTimesAdd(AfterClosing(accums, a, wall))
  {
    hide InclusiveSum, AfterClosing;
    ClosedFields(accums, a, wall);
    var after := AfterClosing(accums, a, wall);
    forall i | 0 <= i < |after| ensures after[i].children == InclusiveSum(after, Children(after, Some(i))) {
      SameChildren(accums, after, Some(i), |accums|);
      ChildrenExact(accums, Some(i), |accums|);
      SumRises(accums, after, a, wall, Children(accums, Some(i)));
    }
  }

  lemma ClosingStacked(accums: seq<Accum>, open: seq<Open>, wall: nat)
    requires Forest(accums) && Stacked(accums, open) && open != []
    ensures Stacked(AfterClosing(accums, open[|open| - 1].accum, wall), open[..|open| - 1])
  {
    hide AfterClosing;
    ClosedFields(accums, open[|open| - 1].accum, wall);
    var after, rest := AfterClosing(accums, open[|open| - 1].accum, wall), open[..|open| - 1];
    assert StackedAt(accums, open, |open| - 1);
    forall k | 0 <= k < |rest| ensures StackedAt(after, rest, k) {
      assert StackedAt(accums, open, k);
      assert rest[k] == open[k] && (k > 0 ==> rest[k - 1] == open[k - 1]);
    }
  }

  /** A span that stays open has its child's time moved from what is pending to what is recorded. */
  lemma ClosingRuns(accums: seq<Accum>, open: seq<Open>, clock: int, now: int, k: nat)
    requires Forest(accums) && Stacked(accums, open) && k + 1 < |open| && clock <= now
    requires RunsAt(accums, open, k, clock) && RunsAt(accums, open, |open| - 1, clock)
    ensures var last := open[|open| - 1];
            && last.start <= now
            && RunsAt(AfterClosing(accums, last.accum, now - last.start), open[..|open| - 1], k, now)
  {
    hide AfterClosing, Stacked, Forest;
    var n, last := |open| - 1, open[|open| - 1];
    TopParent(accums, open);
    ClosedAt(accums, last.accum, now - last.start, open[k].accum);
    StackRises(accums, open, k, n);
    if k < n - 1 {
      StackRises(accums, open, k, n - 1);
    }
    assert open[..n][k] == open[k];
    assert k + 1 < n ==> open[..n][k + 1] == open[k + 1];
  }

  lemma ClosingIdle(accums: seq<Accum>, open: seq<Open>, clock: int, now: int, i: nat)
    requires Forest(accums) && Stacked(accums, open) && open != [] && clock <= now && i < |accums|
    requires RunsAt(accums, open, |open| - 1, clock)
    requires OnStack(open, i) || accums[i].children <= accums[i].inclusive
    requires !OnStack(open[..|open| - 1], i)
    ensures var last := open[|open| - 1];
            && last.start <= now
            && AfterClosing(accums, last.accum, now - last.start)[i].children <=
               AfterClosing(accums, last.accum, now - last.start)[i].inclusive
  {
    hide AfterClosing, Stacked, Forest;
    var n, last := |open| - 1, open[|open| - 1];
    TopParent(accums, open);
    ClosedAt(accums, last.accum, now - last.start, i);
    assert forall k | 0 <= k < n :: open[..n][k] == open[k];
    assert n > 0 ==> open[..n][n - 1].accum != i;
    if i != last.accum {
      assert forall k | 0 <= k < |open| :: k < n ==> open[..n][k].accum != i;
      assert !OnStack(open, i);
    }
  }

  /** Closing the innermost span keeps the times right. */
  lemma ClosingTimed(accums: seq<Accum>, open: seq<Open>, clock: int, now: int)
    requires Forest(accums) && Stacked(accums, open) && Timed(accums, open, clock) && open != [] && clock <= now
    ensures var last := open[|open| - 1];
            && last.start <= now
            && Timed(AfterClosing(accums, last.accum, now - last.start), open[..|open| - 1], now)
  {
    hide AfterClosing, RunsAt, OnStack, Stacked;
    var n, last := |open| - 1, open[|open| - 1];
    assert RunsAt(accums, open, n, clock);
    assert last.start <= now by { RunsLater(accums, open, clock, now); }
    OnTop(accums, open);
    ClosedFields(accums, last.accum, now - last.start);
    var after, rest := AfterClosing(accums, last.accum, now - last.start), open[..n];
    forall k | 0 <= k < |rest| ensures RunsAt(after, rest, k, now) {
      ClosingRuns(accums, open, clock, now, k);
    }
    forall i: nat | i < |after| ensures OnStack(rest, i) || after[i].children <= after[i].inclusive {
      if !OnStack(rest, i) {
        ClosingIdle(accums, open, clock, now, i);
      }
    }
  }

  lemma OnTop(accums: seq<Accum>, open: seq<Open>)
    requires Stacked(accums, open) && open != []
    ensures open[|open| - 1].accum < |accums|
  {
    assert StackedAt(accums, open, |open| - 1);
  }

  lemma RunsLater(accums: seq<Accum>, open: seq<Open>, clock: int, now: int)
    requires open != [] && RunsAt(accums, open, |open| - 1, clock) && clock <= now
    ensures open[|open| - 1].start <= now
  {}

  lemma OpeningTimed(accums: seq<Accum>, open: seq<Open>, clock: int, now: int, index: nat)
    requires Timed(accums, open, clock) && clock <= now && index < |accums|
    requires accums[index].children <= accums[index].inclusive
    ensures Timed(accums, open + [Open(now, index)], now)
  {
    var more, n := open + [Open(now, index)], |open|;
    forall k | 0 <= k < |more| ensures RunsAt(accums, more, k, now) {
      if k < n {
        assert RunsAt(accums, open, k, clock) && more[k] == open[k];
      }
    }
    forall i: nat | i < |accums| ensures OnStack(more, i) || accums[i].children <= accums[i].inclusive {
      if OnStack(open, i) {
        var k :| 0 <= k < n && open[k].accum == i;
        assert more[k].accum == i;
      }
    }
  }

  lemma OpeningStacked(accums: seq<Accum>, open: seq<Open>, now: int, index: nat)
    requires Stacked(accums, open) && index < |accums|
    requires accums[index].parent == ParentAt(open, |open|)
    ensures Stacked(accums, open + [Open(now, index)])
  {
    var more := open + [Open(now, index)];
    forall k | 0 <= k < |more| ensures StackedAt(accums, more, k) {
      assert k < |open| ==> StackedAt(accums, open, k);
      assert k < |open| ==> more[k] == open[k];
      assert k > 0 ==> more[k - 1] == open[k - 1];
    }
  }

  // ----- The recorder -----

  class RunMetrics {
    var accums: seq<Accum>
    var table: map<(Option<nat>, string), nat>
    var open: seq<Open>
    var complete: bool
    /** The latest clock reading, and whether the clock has ever gone back. */
    ghost var clock: int
    ghost var steady: bool

    ghost predicate Valid()
      reads this
    {
      && Forest(accums) && Keyed(accums, table) && Stacked(accums, open) && ChildTimesAdd(accums)
      && (steady ==> Timed(accums, open, clock))
    }

    constructor (now: int)
      ensures Valid() && open == [] && accums == [] && steady && complete && clock == now
    {
      accums, table, open, complete, clock, steady := [], map[], [], true, now, true;
    }

    /** The accumulator for a name below a parent; a new one starts with no time. */
    method FindOrCreateAccum(parent: Option<nat>, name: string) returns (index: nat)
      requires Valid() && (parent.Some? ==> parent.value < |accums|)
      modifies this`accums, this`table
      ensures Valid() && index < |accums| && accums[index].parent == parent && accums[index].name == name
      ensures accums == old(accums) || accums == old(accums) + [Accum(name, parent, 0, 0, 0)]
    {
      hide ChildTimesAdd, Timed, Stacked, Forest;
      if (parent, name) in table {
        return table[(parent, name)];
      }
      index := |accums|;
      var created := Accum(name, parent, 0, 0, 0);
      FreshAccum(accums, created);
      FreshStacked(accums, open, created);
      FreshKeyed(accums, table, created);
      if steady {
        FreshTimed(accums, open, clock, created);
      }
      accums := accums + [created];
      table := table[(parent, name) := index];
    }

    method BeginSpan(name: string, now: int) returns (token: nat)
      requires Valid()
      modifies this
      ensures Valid() && token == |old(open)| == |open| - 1 && open[..token] == old(open) && open[token].start == now
      ensures accums[open[token].accum].name == name && accums[open[token].accum].parent == Innermost(old(open))
      ensures accums == old(accums) || accums == old(accums) + [Accum(name, Innermost(old(open)), 0, 0, 0)]
      ensures steady == (old(steady) && old(clock) <= now) && clock == now && complete == old(complete)
    {
      hide ChildTimesAdd, Timed, Keyed;
      var parent := ParentAt(open, |open|);
      var index := FindOrCreateAccum(parent, name);
      OpeningStacked(accums, open, now, index);
      if steady && clock <= now {
        assert !OnStack(open, index) by { NotYetOpen(accums, open, index); }
        IdleTimed(accums, open, clock, index);
        OpeningTimed(accums, open, clock, now, index);
      }
      open := open + [Open(now, index)];
      steady, clock := steady && clock <= now, now;
      token := |open| - 1;
    }

    /** Records the innermost span's time and takes it off the stack. */
    method CloseInnermost(now: int)
      requires Valid() && open != []
      modifies this
      ensures Valid() && open == old(open)[..|old(open)| - 1]
      ensures var last := old(open)[|old(open)| - 1];
              accums == AfterClosing(old(accums), last.accum, Clamp(now - last.start))
      ensures steady == (old(steady) && old(clock) <= now) && clock == now
      ensures old(complete) && steady ==> complete
    {
      hide ChildTimesAdd, Timed, AfterClosing, Forest, Keyed, Stacked;
      ClosingKeeps(accums, table, open, clock, steady, now);
      var span := open[|open| - 1];
      var raw := now - span.start;
      complete := complete && raw >= 0;
      accums := AfterClosing(accums, span.accum, Clamp(raw));
      open := open[..|open| - 1];
      steady, clock := steady && clock <= now, now;
    }

    /** Closes the innermost span; any other token is refused and leaves the record as it was. */
    method EndSpan(token: nat, now: int)
      requires Valid()
      modifies this
      ensures Valid()
      ensures token + 1 != |old(open)| ==>
                open == old(open) && accums == old(accums) && !complete && steady == old(steady) && clock == old(clock)
      ensures token + 1 == |old(open)| ==>
                && open == old(open)[..token]
                && accums == AfterClosing(old(accums), old(open)[token].accum, Clamp(now - old(open)[token].start))
                && steady == (old(steady) && old(clock) <= now) && clock == now
                && (old(complete) && steady ==> complete)
    {
      hide ChildTimesAdd, Timed, AfterClosing, Forest, Keyed, Stacked;
      if open == [] || token != |open| - 1 {
        complete := false;
        return;
      }
      CloseInnermost(now);
    }

    /**
     * The tree of all accumulators, each reported once. When every span is closed and the clock never went
     * back, no self time is clamped, and all of them add up to the root's inclusive time.
     */
    method TakeStats() returns (root: SpanStats)
      requires Valid()
      ensures forall i: nat :: multiset(Reported(root))[i] == if i < |accums| then 1 else 0
      ensures root.accum.Some? ==>
                && root.accum.value < |accums| && accums[root.accum.value].parent == None
                && Children(accums, None) == [root.accum.value] && root == Build(accums, root.accum.value)
      ensures root.accum.Some? <==> OnlyRun(accums)
      ensures root.accum.None? ==>
                && root.children == BuildAll(accums, SortedChildren(accums, None), 0)
                && root.inclusive == InclusiveSum(accums, Children(accums, None)) && root.self == 0
      ensures steady && open == [] ==> Unclamped(accums) && TotalSelf(root) == root.inclusive
      ensures root.name == "run"
      ensures if root.accum.Some? then Tells(accums, root)
              else root.count == 0 && TellsAll(accums, None, root.children)
    {
      hide ChildTimesAdd, Timed, SortedChildren, Build, BuildAll, Keyed, Tells, TellsAll;
      var roots := SortedChildren(accums, None);
      if steady && open == [] {
        AllIdle(accums, clock);
      }
      RootsSum(accums);
      if |roots| == 1 && accums[roots[0]].name == "run" {
        root := Build(accums, roots[0]);
        BuildHead(accums, roots[0]);
        BuildTells(accums, table, roots[0]);
        forall i: nat ensures multiset(Reported(root))[i] == if i < |accums| then 1 else 0 {
          OneRootReports(accums, i);
        }
        if steady && open == [] {
          SelfTimesAdd(accums, roots[0]);
        }
        return;
      }
      root := SpanStats(None, "run", 0, InclusiveSum(accums, roots), 0, BuildAll(accums, roots, 0));
      forall i: nat ensures multiset(Reported(root))[i] == if i < |accums| then 1 else 0 {
        ManyRootsReport(accums, i);
        assert Reported(root) == [] + ReportedIn(root.children);
        assert [] + ReportedIn(root.children) == ReportedIn(root.children);
      }
      BuildAllTells(accums, table, None, 0);
      if steady && open == [] {
        SelfTimesAddAll(accums, roots, 0);
      }
    }
  }

  // ----- What the tree tells -----

  /** A node tells of its accumulator, and its children of the accumulators below it, in ascending order of name. */
  ghost predicate Tells(accums: seq<Accum>, t: SpanStats)
    decreases t, 0
  {
    && t.accum.Some? && t.accum.value < |accums|
    && var a := accums[t.accum.value];
       && t.name == a.name && t.count == a.count && t.inclusive == a.inclusive
       && (a.inclusive >= a.children ==> t.self == a.inclusive - a.children)
       && (a.inclusive < a.children ==> t.self == 0)
       && TellsAll(accums, t.accum, t.children)
  }

  ghost predicate TellsAll(accums: seq<Accum>, parent: Option<nat>, ts: seq<SpanStats>)
    decreases ts, 1
  {
    && (forall t <- ts :: Tells(accums, t) && accums[t.accum.value].parent == parent)
    && (forall i, j | 0 <= i < j < |ts| :: LexLess(ts[i].name, ts[j].name))
  }

  lemma {:induction false} BuildTells(accums: seq<Accum>, table: map<(Option<nat>, string), nat>, index: nat)
    requires Forest(accums) && Keyed(accums, table) && index < |accums|
    ensures Tells(accums, Build(accums, index))
    decreases |accums| - index, 1
  {
    hide BuildAll, SortedChildren, TellsAll, Keyed;
    BuildAllTells(accums, table, Some(index), index + 1);
  }

  lemma {:induction false} BuildAllTells(accums: seq<Accum>, table: map<(Option<nat>, string), nat>,
                                         parent: Option<nat>, low: nat)
    requires Forest(accums) && Keyed(accums, table) && (if parent.Some? then parent.value < low else low == 0)
    requires InRange(SortedChildren(accums, parent), low, |accums|)
    ensures TellsAll(accums, parent, BuildAll(accums, SortedChildren(accums, parent), low))
    decreases |accums| - low, 2
  {
    hide Build, BuildAll, SortedChildren, Tells, TellsAll, Keyed, LexLess;
    var sorted := SortedChildren(accums, parent);
    var ts := BuildAll(accums, sorted, low);
    BuildAllAt(accums, sorted, low);
    forall k | 0 <= k < |ts|
      ensures Tells(accums, ts[k]) && ts[k].accum == Some(sorted[k]) && ts[k].name == accums[sorted[k]].name
    {
      BuildTells(accums, table, sorted[k]);
      BuildHead(accums, sorted[k]);
    }
    NamesAscend(accums, table, parent);
    TellTogether(accums, parent, sorted, ts);
  }

  lemma TellTogether(accums: seq<Accum>, parent: Option<nat>, sorted: seq<nat>, ts: seq<SpanStats>)
    requires |ts| == |sorted| && InRange(sorted, 0, |accums|)
    requires forall k | 0 <= k < |ts| ::
               && Tells(accums, ts[k]) && ts[k].accum == Some(sorted[k]) && ts[k].name == accums[sorted[k]].name
               && accums[sorted[k]].parent == parent
    requires forall i, j | 0 <= i < j < |sorted| :: LexLess(accums[sorted[i]].name, accums[sorted[j]].name)
    ensures TellsAll(accums, parent, ts)
  {
    hide Tells, LexLess;
    forall t <- ts ensures Tells(accums, t) && t.accum.Some? && t.accum.value < |accums|
                   ensures accums[t.accum.value].parent == parent
    {
      var k :| 0 <= k < |ts| && ts[k] == t;
    }
  }

  lemma {:induction false} BuildAllAt(accums: seq<Accum>, indices: seq<nat>, low: nat)
    requires Forest(accums) && InRange(indices, low, |accums|)
    ensures forall k | 0 <= k < |indices| :: BuildAll(accums, indices, low)[k] == Build(accums, indices[k])
    decreases |indices|
  {
    hide Build;
    if indices != [] {
      BuildAllAt(accums, indices[1..], low);
    }
  }

  function NameOf(accums: seq<Accum>, i: nat): string {
    if i < |accums| then accums[i].name else ""
  }

  /** One name below one parent is one accumulator, so the order of names is strict. */
  lemma NamesAscend(accums: seq<Accum>, table: map<(Option<nat>, string), nat>, parent: Option<nat>)
    requires Keyed(accums, table)
    ensures var sorted := SortedChildren(accums, parent);
            forall i, j | 0 <= i < j < |sorted| :: LexLess(accums[sorted[i]].name, accums[sorted[j]].name)
  {
    hide LexLeq, Sort;
    var sorted := SortedChildren(accums, parent);
    var children := Children(accums, parent);
    var leq := (a: nat, b: nat) => LexLeq(NameOf(accums, a), NameOf(accums, b));
    forall a: nat, b: nat ensures leq(a, b) || leq(b, a) {
      LexTotal(NameOf(accums, a), NameOf(accums, b));
    }
    forall a: nat, b: nat, c: nat | leq(a, b) && leq(b, c) ensures leq(a, c) {
      LexTransitive(NameOf(accums, a), NameOf(accums, b), NameOf(accums, c));
    }
    SortSorted(children, leq);
    SortAgrees(children, ByName(accums), leq);
    SortedDistinct(accums, parent);
    forall i, j | 0 <= i < j < |sorted| ensures LexLess(accums[sorted[i]].name, accums[sorted[j]].name) {
      assert leq(sorted[i], sorted[j]);
      assert table[(parent, accums[sorted[i]].name)] == sorted[i];
      assert table[(parent, accums[sorted[j]].name)] == sorted[j];
    }
  }

  /** Everything was recorded below one accumulator, and it is called `run`. */
  predicate OnlyRun(accums: seq<Accum>) {
    |Children(accums, None)| == 1 && accums[Children(accums, None)[0]].name == "run"
  }

  /** Sorting the roots by name changes neither which they are nor what their times add up to. */
  lemma RootsSum(accums: seq<Accum>)
    ensures InRange(Children(accums, None), 0, |accums|)
    ensures InclusiveSum(accums, SortedChildren(accums, None)) == InclusiveSum(accums, Children(accums, None))
    ensures |SortedChildren(accums, None)| == 1 ==> Children(accums, None) == SortedChildren(accums, None)
  {
    var roots, sorted := Children(accums, None), SortedChildren(accums, None);
    hide SortedChildren, Children;
    ChildrenInRange(accums, None);
    SumPermuted(accums, sorted, roots);
    assert |multiset(roots)| == |multiset(sorted)|;
    if |sorted| == 1 {
      assert sorted[0] in multiset(roots) && roots == [roots[0]];
    }
  }

  lemma FreshStacked(accums: seq<Accum>, open: seq<Open>, a: Accum)
    requires Stacked(accums, open)
    ensures Stacked(accums + [a], open)
  {
    forall k | 0 <= k < |open| ensures StackedAt(accums + [a], open, k) {
      assert StackedAt(accums, open, k);
    }
  }

  lemma FreshKeyed(accums: seq<Accum>, table: map<(Option<nat>, string), nat>, a: Accum)
    requires Keyed(accums, table) && (a.parent, a.name) !in table
    ensures Keyed(accums + [a], table[(a.parent, a.name) := |accums|])
  {}

  lemma FreshTimed(accums: seq<Accum>, open: seq<Open>, clock: int, a: Accum)
    requires Timed(accums, open, clock) && a.inclusive == 0 && a.children == 0
    ensures Timed(accums + [a], open, clock)
  {
    forall k | 0 <= k < |open| ensures RunsAt(accums + [a], open, k, clock) {
      assert RunsAt(accums, open, k, clock);
    }
  }

  /** A child of the innermost span is not open already. */
  lemma NotYetOpen(accums: seq<Accum>, open: seq<Open>, index: nat)
    requires Forest(accums) && Stacked(accums, open) && index < |accums|
    requires accums[index].parent == ParentAt(open, |open|)
    ensures !OnStack(open, index)
  {
    forall k | 0 <= k < |open| ensures open[k].accum != index {
      if k < |open| - 1 {
        StackRises(accums, open, k, |open| - 1);
      }
    }
  }

  lemma IdleTimed(accums: seq<Accum>, open: seq<Open>, clock: int, i: nat)
    requires Timed(accums, open, clock) && i < |accums| && !OnStack(open, i)
    ensures accums[i].children <= accums[i].inclusive
  {}

  lemma AllIdle(accums: seq<Accum>, clock: int)
    requires Timed(accums, [], clock)
    ensures Unclamped(accums)
  {
    forall i: nat | i < |accums| ensures accums[i].children <= accums[i].inclusive {
      assert !OnStack([], i);
    }
  }

  lemma ClosingKeyed(accums: seq<Accum>, table: map<(Option<nat>, string), nat>, a: nat, wall: nat)
    requires Forest(accums) && a < |accums| && Keyed(accums, table)
    ensures Keyed(AfterClosing(accums, a, wall), table)
  {
    hide AfterClosing;
    ClosedFields(accums, a, wall);
  }

  lemma ClosingKeeps(accums: seq<Accum>, table: map<(Option<nat>, string), nat>, open: seq<Open>, clock: int,
                     steady: bool, now: int)
    requires Forest(accums) && Keyed(accums, table) && Stacked(accums, open) && ChildTimesAdd(accums) && open != []
    requires steady ==> Timed(accums, open, clock)
    ensures var last := open[|open| - 1];
            && last.accum < |accums|
            && var after := AfterClosing(accums, last.accum, Clamp(now - last.start));
               && Forest(after) && Keyed(after, table) && Stacked(after, open[..|open| - 1]) && ChildTimesAdd(after)
               && (steady && clock <= now ==> Timed(after, open[..|open| - 1], now) && last.start <= now)
  {
    hide ChildTimesAdd, Timed, AfterClosing, Forest, Keyed, Stacked;
    var last := open[|open| - 1];
    var wall := Clamp(now - last.start);
    TopParent(accums, open);
    if steady && clock <= now {
      ClosingTimed(accums, open, clock, now);
    }
    ClosingStacked(accums, open, wall);
    ClosingAdds(accums, last.accum, wall);
    ClosingKeyed(accums, table, last.accum, wall);
  }

  lemma BuildHead(accums: seq<Accum>, index: nat)
    requires Forest(accums) && index < |accums|
    ensures var t := Build(accums, index);
            t.accum == Some(index) && t.name == accums[index].name && t.inclusive == accums[index].inclusive
  {}

  lemma ManyRootsReport(accums: seq<Accum>, i: nat)
    requires Forest(accums)
    ensures multiset(ReportedIn(BuildAll(accums, SortedChildren(accums, None), 0)))[i] ==
            if i < |accums| then 1 else 0
  {
    hide BuildAll, ReportedIn, SortedChildren, CountOver;
    var roots := SortedChildren(accums, None);
    if i < |accums| {
      ReportedCountsAll(accums, roots, 0, i);
      OneChildOver(accums, None, i);
    } else {
      ReportedInRangeAll(accums, roots, 0);
      NotCounted(ReportedIn(BuildAll(accums, roots, 0)), |accums|, i);
    }
  }

  lemma NotCounted(s: seq<nat>, n: nat, i: nat)
    requires InRange(s, 0, n) && i >= n
    ensures multiset(s)[i] == 0
  {
    assert i !in s;
  }

  lemma OneRootReports(accums: seq<Accum>, i: nat)
    requires Forest(accums) && |SortedChildren(accums, None)| == 1
    ensures multiset(Reported(Build(accums, SortedChildren(accums, None)[0])))[i] == if i < |accums| then 1 else 0
  {
    hide Build, Reported, SortedChildren;
    var roots := SortedChildren(accums, None);
    ManyRootsReport(accums, i);
    assert roots[1..] == [];
    var ts := BuildAll(accums, roots, 0);
    assert ts == [Build(accums, roots[0])] + BuildAll(accums, [], 0);
    assert ts[1..] == [] && Reported(ts[0]) + [] == Reported(ts[0]);
    assert ReportedIn(ts) == Reported(ts[0]) + ReportedIn(ts[1..]);
  }
}
