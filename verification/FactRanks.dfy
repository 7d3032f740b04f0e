/** Dense ranks that stand for encoded keys while a batch is put in order. */
module FactRanks {
  import opened Orders

  /** Ranks compare as the bytes of the keys they stand for do. */
  predicate Ranked(pool: seq<string>, ranks: seq<nat>) {
    |ranks| == |pool|
    && forall a, b | 0 <= a < |pool| && 0 <= b < |pool| :: ranks[a] <= ranks[b] <==> LexLeq(pool[a], pool[b])
  }

  lemma RanksSeparate(pool: seq<string>, ranks: seq<nat>, a: nat, b: nat)
    requires Ranked(pool, ranks) && a < |pool| && b < |pool|
    ensures ranks[a] < ranks[b] <==> LexLess(pool[a], pool[b])
    ensures ranks[a] == ranks[b] <==> pool[a] == pool[b]
  {
    LexTotal(pool[a], pool[b]);
    if LexLeq(pool[a], pool[b]) && LexLeq(pool[b], pool[a]) {
      LexAntisymmetric(pool[a], pool[b]);
    }
    LexReflexive(pool[a]);
  }

  /** The interning pool: distinct keys by id, then their ranks. */
  class FactRanks {
    var keys: seq<string>
    var index: map<string, nat>
    var ranks: seq<nat>
    ghost var pool: seq<string>
    ghost var finished: bool

    ghost predicate Valid()
      reads this
    {
      if finished then Ranked(pool, ranks)
      else
        && keys == pool
        && (forall key <- index :: index[key] < |keys| && keys[index[key]] == key)
        && (forall id | 0 <= id < |keys| :: keys[id] in index && index[keys[id]] == id)
    }

    constructor ()
      ensures Valid() && !finished && pool == []
    {
      keys, index, ranks, pool, finished := [], map[], [], [], false;
    }

    /** The id of these bytes; the same bytes always get the same id. */
    method Intern(key: string) returns (id: nat)
      requires Valid() && !finished
      modifies this
      ensures Valid() && !finished && old(pool) <= pool && id < |pool| && pool[id] == key
      ensures forall a, b | 0 <= a < b < |pool| :: pool[a] != pool[b]
    {
      if key in index {
        return index[key];
      }
      id := |keys|;
      keys, pool := keys + [key], pool + [key];
      index := index[key := id];
    }

    /** Ranks the interned keys in ascending byte order and lets go of their bytes. */
    method Finish()
      requires Valid() && !finished
      modifies this
      ensures Valid() && finished && pool == old(pool) && Dense(ranks) && keys == [] && index == map[]
    {
      var table := keys;
      ranks := RankAll(table);
      keys, index := [], map[];
      finished := true;
    }
  }

  function Iota(n: nat): (s: seq<nat>)
    ensures |s| == n && forall i :: 0 <= i < n ==> s[i] == i
  {
    seq(n, i requires 0 <= i < n => i)
  }

  /** Ids compare by the keys they stand for. */
  function ByKey(keys: seq<string>): (nat, nat) -> bool {
    (a: nat, b: nat) =>
      if a < |keys| && b < |keys| then LexLeq(keys[a], keys[b]) else b >= |keys|
  }

  lemma ByKeyOrders(keys: seq<string>)
    ensures TotalPreorder(ByKey(keys))
  {
    var leq := ByKey(keys);
    forall x: nat, y: nat ensures leq(x, y) || leq(y, x) {
      if x < |keys| && y < |keys| {
        LexTotal(keys[x], keys[y]);
      }
    }
    forall x: nat, y: nat, z: nat | leq(x, y) && leq(y, z) ensures leq(x, z) {
      if x < |keys| && y < |keys| && z < |keys| {
        LexTransitive(keys[x], keys[y], keys[z]);
      }
    }
  }

  /** The ids in ascending order of their keys. */
  predicate Ascending(keys: seq<string>, order: seq<nat>) {
    && IsPermutation(order, |keys|)
    && (forall i, j | 0 <= i <= j < |order| :: LexLeq(keys[order[i]], keys[order[j]]))
  }

  lemma SortedIds(keys: seq<string>)
    ensures Ascending(keys, Sort(Iota(|keys|), ByKey(keys)))
    ensures forall a | 0 <= a < |keys| :: a in Sort(Iota(|keys|), ByKey(keys))
  {
    var ids, leq := Iota(|keys|), ByKey(keys);
    var order := Sort(ids, leq);
    ByKeyOrders(keys);
    SortSorted(ids, leq);
    var p := FindRearrangement(order, ids);
    assert order == p;
    forall i, j | 0 <= i <= j < |order| ensures LexLeq(keys[order[i]], keys[order[j]]) {
      if i == j {
        LexReflexive(keys[order[i]]);
      } else {
        assert leq(order[i], order[j]);
      }
    }
    SameElements(order, ids);
    forall a | 0 <= a < |keys| ensures a in order {
      assert ids[a] in ids;
    }
  }

  /** How often the key changes before position `i` of the order. */
  function RankAt(keys: seq<string>, order: seq<nat>, i: nat): nat
    requires IsPermutation(order, |keys|) && i < |order|
  {
    if i == 0 then 0
    else RankAt(keys, order, i - 1) + (if keys[order[i]] != keys[order[i - 1]] then 1 else 0)
  }

  lemma RankStep(keys: seq<string>, order: seq<nat>, i: nat)
    requires IsPermutation(order, |keys|) && i < |order|
    ensures RankAt(keys, order, i) ==
            if i == 0 then 0
            else RankAt(keys, order, i - 1) + (if keys[order[i]] != keys[order[i - 1]] then 1 else 0)
  {}

  lemma {:induction false} RanksAscend(keys: seq<string>, order: seq<nat>, i: nat, j: nat)
    requires Ascending(keys, order) && i <= j < |order|
    ensures RankAt(keys, order, i) <= RankAt(keys, order, j)
    ensures RankAt(keys, order, i) == RankAt(keys, order, j) <==> keys[order[i]] == keys[order[j]]
    decreases j
  {
    hide LexLeq;
    if i < j {
      RanksAscend(keys, order, i, j - 1);
      assert LexLeq(keys[order[i]], keys[order[j - 1]]) && LexLeq(keys[order[j - 1]], keys[order[j]]);
      if keys[order[i]] == keys[order[j]] {
        LexAntisymmetric(keys[order[i]], keys[order[j - 1]]);
      }
    }
  }

  /** Two positions rank as their keys compare. */
  lemma RanksCompare(keys: seq<string>, order: seq<nat>, i: nat, j: nat)
    requires Ascending(keys, order) && i < |order| && j < |order|
    ensures RankAt(keys, order, i) <= RankAt(keys, order, j) <==> LexLeq(keys[order[i]], keys[order[j]])
  {
    hide LexLeq;
    if i <= j {
      RanksAscend(keys, order, i, j);
    } else {
      RanksAscend(keys, order, j, i);
      if LexLeq(keys[order[i]], keys[order[j]]) {
        LexAntisymmetric(keys[order[i]], keys[order[j]]);
      }
      LexReflexive(keys[order[i]]);
    }
  }

  /** Walks the ids in key order and counts a new rank at each change of key. */
  method Number(keys: seq<string>, order: seq<nat>) returns (ranks: seq<nat>)
    requires IsPermutation(order, |keys|)
    ensures |ranks| == |keys| && forall j | 0 <= j < |order| :: ranks[order[j]] == RankAt(keys, order, j)
  {
    hide RankAt;
    var table := new nat[|keys|](_ => 0);
    var rank := 0;
    for i := 0 to |order|
      invariant rank == if i == 0 then 0 else RankAt(keys, order, i - 1)
      invariant forall j | 0 <= j < i :: table[order[j]] == RankAt(keys, order, j)
    {
      RankStep(keys, order, i);
      if i != 0 && keys[order[i]] != keys[order[i - 1]] {
        rank := rank + 1;
      }
      table[order[i]] := rank;
    }
    ranks := table[..];
  }

  /** No rank is left out below another. */
  predicate Dense(ranks: seq<nat>) {
    forall a, r: nat | 0 <= a < |ranks| && r <= ranks[a] :: r in ranks
  }

  lemma {:induction false} RanksDense(keys: seq<string>, order: seq<nat>, j: nat, r: nat) returns (i: nat)
    requires IsPermutation(order, |keys|) && j < |order| && r <= RankAt(keys, order, j)
    ensures i < |order| && RankAt(keys, order, i) == r
    decreases j
  {
    if RankAt(keys, order, j) == r {
      i := j;
    } else {
      RankStep(keys, order, j);
      i := RanksDense(keys, order, j - 1, r);
    }
  }

  method RankAll(keys: seq<string>) returns (ranks: seq<nat>)
    ensures Ranked(keys, ranks) && Dense(ranks)
  {
    hide LexLeq, ByKey, Sort, RankAt;
    var order := Sort(Iota(|keys|), ByKey(keys));
    SortedIds(keys);
    ranks := Number(keys, order);
    forall a, b | 0 <= a < |keys| && 0 <= b < |keys|
      ensures ranks[a] <= ranks[b] <==> LexLeq(keys[a], keys[b])
    {
      assert a in order && b in order;
      var i :| 0 <= i < |order| && order[i] == a;
      var j :| 0 <= j < |order| && order[j] == b;
      RanksCompare(keys, order, i, j);
    }
    forall a, r: nat | 0 <= a < |ranks| && r <= ranks[a] ensures r in ranks {
      assert a in order;
      var j :| 0 <= j < |order| && order[j] == a;
      var i := RanksDense(keys, order, j, r);
      assert ranks[order[i]] == r;
    }
  }
}
