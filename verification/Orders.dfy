/** Byte-string order, sorting, and rearrangements. */
module Orders {

  // ----- Lexicographic order on byte strings -----

  predicate LexLeq(a: string, b: string) {
    a == [] || (b != [] && (a[0] < b[0] || (a[0] == b[0] && LexLeq(a[1..], b[1..]))))
  }

  predicate LexLess(a: string, b: string) {
    LexLeq(a, b) && a != b
  }

  /** The two agree on their first `k` bytes, and then the first has the smaller byte. */
  predicate SmallerAt(a: string, b: string, k: nat) {
    k < |a| && k < |b| && a[..k] == b[..k] && a[k] < b[k]
  }

  /** Byte order: a string comes before its extensions, and otherwise the first different byte decides. */
  lemma {:induction false} LexLessExactly(a: string, b: string)
    ensures LexLess(a, b) <==> a < b || exists k: nat :: SmallerAt(a, b, k)
    decreases |a|
  {
    if a != [] && b != [] {
      LexLessExactly(a[1..], b[1..]);
      assert a == [a[0]] + a[1..] && b == [b[0]] + b[1..];
      if a[0] < b[0] {
        assert SmallerAt(a, b, 0);
      } else if a[0] == b[0] {
        if k: nat :| SmallerAt(a[1..], b[1..], k) {
          assert a[..k + 1] == [a[0]] + a[1..][..k] && b[..k + 1] == [b[0]] + b[1..][..k];
          assert SmallerAt(a, b, k + 1);
        }
        if k: nat :| SmallerAt(a, b, k) {
          assert a[1..][..k - 1] == a[..k][1..] && b[1..][..k - 1] == b[..k][1..];
          assert SmallerAt(a[1..], b[1..], k - 1);
        }
      }
      forall k: nat | SmallerAt(a, b, k) ensures a[0] <= b[0] {
        SmallerStart(a, b, k);
      }
    }
  }

  lemma SmallerStart(a: string, b: string, k: nat)
    requires SmallerAt(a, b, k)
    ensures a[0] <= b[0]
  {
    if k > 0 {
      assert a[..k][0] == b[..k][0];
    }
  }

  lemma LexTotal(a: string, b: string)
    ensures LexLeq(a, b) || LexLeq(b, a)
  {}

  lemma LexReflexive(a: string)
    ensures LexLeq(a, a)
  {}

  lemma {:induction false} LexAntisymmetric(a: string, b: string)
    requires LexLeq(a, b) && LexLeq(b, a)
    ensures a == b
    decreases |a|
  {
    if a != [] {
      LexAntisymmetric(a[1..], b[1..]);
      assert a == [a[0]] + a[1..] && b == [b[0]] + b[1..];
    }
  }

  lemma {:induction false} LexTransitive(a: string, b: string, c: string)
    requires LexLeq(a, b) && LexLeq(b, c)
    ensures LexLeq(a, c)
    decreases |a|
  {
    if a != [] && a[0] == b[0] == c[0] {
      LexTransitive(a[1..], b[1..], c[1..]);
    }
  }

  lemma LessEqualLess(a: string, b: string, c: string)
    requires LexLeq(a, b) && LexLess(b, c)
    ensures LexLess(a, c)
  {
    LexTransitive(a, b, c);
    if a == c {
      LexAntisymmetric(a, b);
    }
  }

  lemma LessLessEqual(a: string, b: string, c: string)
    requires LexLess(a, b) && LexLeq(b, c)
    ensures LexLess(a, c)
  {
    LexTransitive(a, b, c);
    if a == c {
      LexAntisymmetric(a, b);
    }
  }

  /** The least of a set, as the first key of an ordered container. */
  method Least(ids: set<string>) returns (least: string)
    requires ids != {}
    ensures least in ids && forall id <- ids - {least} :: LexLess(least, id)
  {
    hide LexLeq;
    var rest := ids;
    least :| least in ids;
    rest := rest - {least};
    while rest != {}
      invariant least in ids && least !in rest && rest <= ids
      invariant forall id <- ids - rest - {least} :: LexLess(least, id)
      decreases rest
    {
      var id :| id in rest;
      LexTotal(id, least);
      if LexLeq(id, least) {
        forall other <- ids - rest - {least} ensures LexLess(id, other) {
          LessEqualLess(id, least, other);
        }
        assert ids - (rest - {id}) - {id} == ids - rest;
        least := id;
      }
      rest := rest - {id};
    }
  }

  lemma SubsetSize<T>(a: set<T>, b: set<T>)
    requires a <= b
    ensures |a| <= |b| && (|a| == |b| ==> a == b)
  {
    if a != b {
      var x :| x in b && x !in a;
      SubsetSize(a, b - {x});
    }
  }

  // ----- Sorting -----

  /** Any two elements compare, and comparison chains. */
  ghost predicate TotalPreorder<T(!new)>(leq: (T, T) -> bool) {
    && (forall x, y :: leq(x, y) || leq(y, x))
    && (forall x, y, z :: leq(x, y) && leq(y, z) ==> leq(x, z))
  }

  ghost predicate Antisymmetric<T>(s: seq<T>, leq: (T, T) -> bool) {
    forall x, y :: x in s && y in s && leq(x, y) && leq(y, x) ==> x == y
  }

  predicate SortedBy<T>(s: seq<T>, leq: (T, T) -> bool) {
    forall i, j :: 0 <= i < j < |s| ==> leq(s[i], s[j])
  }

  function Insert<T>(x: T, s: seq<T>, leq: (T, T) -> bool): (r: seq<T>)
    ensures multiset(r) == multiset{x} + multiset(s)
  {
    if s == [] || leq(x, s[0]) then [x] + s
    else
      assert s == [s[0]] + s[1..];
      [s[0]] + Insert(x, s[1..], leq)
  }

  /** The elements of `s` in ascending order. */
  function Sort<T>(s: seq<T>, leq: (T, T) -> bool): (r: seq<T>)
    ensures multiset(r) == multiset(s)
  {
    if s == [] then []
    else
      assert s == [s[0]] + s[1..];
      Insert(s[0], Sort(s[1..], leq), leq)
  }

  lemma SameElements<T>(a: seq<T>, b: seq<T>)
    requires multiset(a) == multiset(b)
    ensures |a| == |b| && forall x :: x in a <==> x in b
  {
    assert |multiset(a)| == |a| && |multiset(b)| == |b|;
    assert forall x :: x in a <==> x in multiset(a);
    assert forall x :: x in b <==> x in multiset(b);
  }

  lemma {:induction false} InsertSorted<T(!new)>(x: T, s: seq<T>, leq: (T, T) -> bool)
    requires TotalPreorder(leq) && SortedBy(s, leq)
    ensures SortedBy(Insert(x, s, leq), leq)
    decreases |s|
  {
    if s != [] && !leq(x, s[0]) {
      var tail := Insert(x, s[1..], leq);
      InsertSorted(x, s[1..], leq);
      forall y | y in tail
        ensures leq(s[0], y)
      {
        assert y in multiset(tail);
        assert y == x || y in s[1..];
      }
    }
  }

  lemma {:induction false} SortSorted<T(!new)>(s: seq<T>, leq: (T, T) -> bool)
    requires TotalPreorder(leq)
    ensures SortedBy(Sort(s, leq), leq)
    decreases |s|
  {
    if s != [] {
      SortSorted(s[1..], leq);
      InsertSorted(s[0], Sort(s[1..], leq), leq);
    }
  }

  lemma {:induction false} SortedStays<T>(s: seq<T>, leq: (T, T) -> bool)
    requires SortedBy(s, leq)
    ensures Sort(s, leq) == s
    decreases |s|
  {
    if s != [] {
      SortedStays(s[1..], leq);
      assert s == [s[0]] + s[1..];
    }
  }

  lemma FirstIsLeast<T(!new)>(a: seq<T>, x: T, leq: (T, T) -> bool)
    requires SortedBy(a, leq) && TotalPreorder(leq) && x in a
    ensures leq(a[0], x)
  {
    var i :| 0 <= i < |a| && a[i] == x;
    assert leq(a[0], a[0]);
  }

  lemma SameFirst<T(!new)>(a: seq<T>, b: seq<T>, leq: (T, T) -> bool)
    requires SortedBy(a, leq) && SortedBy(b, leq) && multiset(a) == multiset(b) && a != []
    requires Antisymmetric(a, leq) && TotalPreorder(leq)
    ensures b != [] && a[0] == b[0] && multiset(a[1..]) == multiset(b[1..])
  {
    hide SortedBy, TotalPreorder;
    SameElements(a, b);
    FirstIsLeast(a, b[0], leq);
    FirstIsLeast(b, a[0], leq);
    assert a[0] in a && b[0] in a;
    assert a == [a[0]] + a[1..] && b == [b[0]] + b[1..];
    assert multiset(a[1..]) == multiset(a) - multiset{a[0]};
    assert multiset(b[1..]) == multiset(b) - multiset{b[0]};
  }

  /** A sorted arrangement is determined by its elements when the order separates them. */
  lemma {:induction false} SortedUnique<T(!new)>(a: seq<T>, b: seq<T>, leq: (T, T) -> bool)
    requires SortedBy(a, leq) && SortedBy(b, leq) && multiset(a) == multiset(b)
    requires Antisymmetric(a, leq) && TotalPreorder(leq)
    ensures a == b
    decreases |a|
  {
    if a == [] {
      assert |multiset(b)| == 0;
    } else {
      SameFirst(a, b, leq);
      assert SortedBy(a[1..], leq) && SortedBy(b[1..], leq) && Antisymmetric(a[1..], leq);
      hide SortedBy, TotalPreorder, Antisymmetric;
      SortedUnique(a[1..], b[1..], leq);
    }
  }

  /** Sorting looks at comparison outcomes alone. */
  lemma {:induction false} SortAgrees<T>(s: seq<T>, leq: (T, T) -> bool, other: (T, T) -> bool)
    requires forall x, y :: x in s && y in s ==> leq(x, y) == other(x, y)
    ensures Sort(s, leq) == Sort(s, other)
    decreases |s|
  {
    if s != [] {
      SortAgrees(s[1..], leq, other);
      var tail := Sort(s[1..], leq);
      SameElements(tail, s[1..]);
      forall y | y in tail
        ensures leq(s[0], y) == other(s[0], y)
      {
        assert y in multiset(tail);
        assert y in s[1..];
        assert s[0] in s && y in s;
      }
      InsertAgrees(s[0], tail, leq, other);
    }
  }

  lemma {:induction false} InsertAgrees<T>(x: T, s: seq<T>, leq: (T, T) -> bool, other: (T, T) -> bool)
    requires forall y :: y in s ==> leq(x, y) == other(x, y)
    ensures Insert(x, s, leq) == Insert(x, s, other)
    decreases |s|
  {
    if s != [] {
      assert s[0] in s;
      InsertAgrees(x, s[1..], leq, other);
    }
  }

  // ----- Rearrangements -----

  /** `p` lists every index below `n` exactly once. */
  predicate IsPermutation(p: seq<nat>, n: nat) {
    && |p| == n
    && (forall i :: 0 <= i < n ==> p[i] < n)
    && (forall i, j :: 0 <= i < j < n ==> p[i] != p[j])
  }

  /** `a` is `b` rearranged by `p`. */
  predicate Rearranges<T(==)>(a: seq<T>, b: seq<T>, p: seq<nat>) {
    |a| == |b| && IsPermutation(p, |a|) && forall i :: 0 <= i < |a| ==> a[i] == b[p[i]]
  }

  function Without<T>(s: seq<T>, k: nat): seq<T>
    requires k < |s|
  {
    s[..k] + s[k + 1..]
  }

  /** Index `i` of a sequence, seen after index `k` was taken out. */
  function ClosedIndex(i: nat, k: nat): nat {
    if i > k then i - 1 else i
  }

  function OpenedIndex(i: nat, k: nat): nat {
    if i >= k then i + 1 else i
  }

  lemma MultisetWithout<T>(s: seq<T>, k: nat)
    requires k < |s|
    ensures multiset(Without(s, k)) == multiset(s) - multiset{s[k]}
  {
    assert s == s[..k] + [s[k]] + s[k + 1..];
  }

  /** `p` after its first entry, with that entry's value closed up. */
  function Remaining(p: seq<nat>): seq<nat>
    requires p != []
  {
    seq(|p| - 1, i requires 0 <= i < |p| - 1 => ClosedIndex(p[i + 1], p[0]))
  }

  lemma RemainingRearranges<T>(a: seq<T>, b: seq<T>, p: seq<nat>)
    requires Rearranges(a, b, p) && a != []
    ensures Rearranges(a[1..], Without(b, p[0]), Remaining(p))
  {
    var q, rest := Remaining(p), Without(b, p[0]);
    forall i | 0 <= i < |q|
      ensures q[i] < |q| && a[1..][i] == rest[q[i]]
    {
      assert p[i + 1] != p[0];
      assert a[i + 1] == b[p[i + 1]];
    }
    forall i, j | 0 <= i < j < |q|
      ensures q[i] != q[j]
    {
      assert p[i + 1] != p[j + 1] && p[i + 1] != p[0] && p[j + 1] != p[0];
    }
  }

  /** `q` with the index `k` put back in front. */
  function Restored(q: seq<nat>, k: nat): seq<nat> {
    [k] + seq(|q|, i requires 0 <= i < |q| => OpenedIndex(q[i], k))
  }

  lemma RestoredRearranges<T>(a: seq<T>, b: seq<T>, k: nat, q: seq<nat>)
    requires a != [] && |a| == |b| && k < |b| && b[k] == a[0] && Rearranges(a[1..], Without(b, k), q)
    ensures Rearranges(a, b, Restored(q, k))
  {
    var p := Restored(q, k);
    forall i | 0 <= i < |a|
      ensures p[i] < |a| && a[i] == b[p[i]]
    {
      if i > 0 {
        assert a[i] == a[1..][i - 1] == Without(b, k)[q[i - 1]];
      }
    }
    forall i, j | 0 <= i < j < |p|
      ensures p[i] != p[j]
    {
      if i > 0 { assert q[i - 1] != q[j - 1]; }
    }
  }

  /** Sequences with the same elements are rearrangements of each other, and only those are. */
  lemma {:induction false} FindRearrangement<T>(a: seq<T>, b: seq<T>) returns (p: seq<nat>)
    requires multiset(a) == multiset(b)
    ensures Rearranges(a, b, p)
    decreases |a|
  {
    hide Rearranges;
    SameElements(a, b);
    if a == [] {
      p := [];
      EmptyRearranges(a, b);
    } else {
      assert a[0] in b;
      var k :| 0 <= k < |b| && b[k] == a[0];
      MultisetWithout(b, k);
      assert a == [a[0]] + a[1..];
      var q := FindRearrangement(a[1..], Without(b, k));
      p := Restored(q, k);
      RestoredRearranges(a, b, k, q);
    }
  }

  lemma EmptyRearranges<T>(a: seq<T>, b: seq<T>)
    requires a == [] && b == []
    ensures Rearranges(a, b, [])
  {}

  lemma {:induction false} RearrangedMultiset<T>(a: seq<T>, b: seq<T>, p: seq<nat>)
    requires Rearranges(a, b, p)
    ensures multiset(a) == multiset(b)
    decreases |a|
  {
    if a != [] {
      RemainingRearranges(a, b, p);
      RearrangedMultiset(a[1..], Without(b, p[0]), Remaining(p));
      MultisetWithout(b, p[0]);
      assert a == [a[0]] + a[1..];
    } else {
      assert b == [];
    }
  }

  lemma RearrangedDistinct<A, B>(a: seq<A>, b: seq<A>, f: A -> B)
    requires multiset(a) == multiset(b) && forall i, j | 0 <= i < j < |a| :: f(a[i]) != f(a[j])
    ensures forall i, j | 0 <= i < j < |b| :: f(b[i]) != f(b[j])
  {
    var p := FindRearrangement(b, a);
    forall i, j | 0 <= i < j < |b| ensures f(b[i]) != f(b[j]) {
      assert p[i] != p[j];
      assert b[i] == a[p[i]] && b[j] == a[p[j]];
    }
  }
}
