/** The work list that decides whether the witness graph is acyclic. */
module WitnessDag {
  import opened Basics
  import opened Graphs

  /** The published facts a witness joins, by position; an input may be no published fact. */
  datatype Endpoints = Endpoints(result: nat, input: Option<nat>)

  predicate Within(endpoints: seq<Endpoints>, n: nat) {
    forall e <- endpoints :: e.result < n && (e.input.Some? ==> e.input.value < n)
  }

  /** One edge, from input to result, for every witness whose input is a published fact. */
  function Dependencies(endpoints: seq<Endpoints>): (edges: seq<Edge<nat>>) {
    if endpoints == [] then []
    else
      var last := endpoints[|endpoints| - 1];
      Dependencies(endpoints[..|endpoints| - 1])
      + (if last.input.Some? then [Edge(last.input.value, last.result)] else [])
  }

  lemma {:induction false} DependenciesHold(endpoints: seq<Endpoints>, edge: Edge<nat>)
    ensures edge in Dependencies(endpoints) <==> Endpoints(edge.to, Some(edge.from)) in endpoints
  {
    if endpoints != [] {
      var rest, last := endpoints[..|endpoints| - 1], endpoints[|endpoints| - 1];
      assert endpoints == rest + [last];
      DependenciesHold(rest, edge);
      assert last.input.Some? && edge == Edge(last.input.value, last.result) <==>
             last == Endpoints(edge.to, Some(edge.from));
    }
  }

  /** The results that depend on `u`, one for each edge out of it. */
  function Dependents(edges: seq<Edge<nat>>, u: nat): seq<nat> {
    if edges == [] then []
    else
      var last := edges[|edges| - 1];
      Dependents(edges[..|edges| - 1], u) + (if last.from == u then [last.to] else [])
  }

  /** How many edges into `v` come from a node not yet processed. */
  function Waiting(edges: seq<Edge<nat>>, v: nat, done: set<nat>): nat {
    if edges == [] then 0
    else
      var last := edges[|edges| - 1];
      Waiting(edges[..|edges| - 1], v, done) + (if last.to == v && last.from !in done then 1 else 0)
  }

  lemma {:induction false} WaitingForNone(edges: seq<Edge<nat>>, v: nat, done: set<nat>)
    ensures Waiting(edges, v, done) == 0 <==> forall e <- edges :: e.to == v ==> e.from in done
  {
    if edges != [] {
      var rest, last := edges[..|edges| - 1], edges[|edges| - 1];
      assert edges == rest + [last];
      WaitingForNone(rest, v, done);
    }
  }

  /** Processing `u` releases `v` once for each of the edges between them. */
  lemma {:induction false} Released(edges: seq<Edge<nat>>, u: nat, v: nat, done: set<nat>)
    requires u !in done
    ensures Waiting(edges, v, done) == Waiting(edges, v, done + {u}) + multiset(Dependents(edges, u))[v]
  {
    if edges != [] {
      Released(edges[..|edges| - 1], u, v, done);
    }
  }

  lemma {:induction false} DependentsWithin(edges: seq<Edge<nat>>, u: nat, n: nat)
    requires forall e <- edges :: e.to < n
    ensures forall v <- Dependents(edges, u) :: v < n
  {
    if edges != [] {
      var rest, last := edges[..|edges| - 1], edges[|edges| - 1];
      assert edges == rest + [last];
      DependentsWithin(rest, u, n);
    }
  }

  const NONE: seq<nat> := []

  /** The nodes below `n`. */
  function Below(n: nat): (s: set<nat>)
    ensures |s| == n
    ensures forall v: nat :: v in s <==> v < n
  {
    if n == 0 then {} else Below(n - 1) + {n - 1}
  }

  lemma NoMoreThan(s: seq<nat>, n: nat)
    requires NoRepeat(s) && forall v <- s :: v < n
    ensures |s| <= n
    ensures |s| == n ==> forall v: nat | v < n :: v in s
  {
    if |s| > n {
      var i, j := Pigeonhole(s, Below(n));
    } else if v: nat :| v < n && v !in s && |s| == n {
      var i, j := Pigeonhole(s + [v], Below(n));
    }
  }

  lemma SomeOutside(s: seq<nat>, n: nat)
    requires |s| < n
    ensures exists v: nat | v < n :: v !in s
  {
    var all := seq(n, i requires 0 <= i < n => i);
    if forall v: nat | v < n :: v in s {
      SetNoLarger(s);
      var i, j := Pigeonhole(all, Members(s));
    }
  }

  lemma {:induction false} SetNoLarger(s: seq<nat>)
    ensures |Members(s)| <= |s|
  {
    if s == [] {
      assert Members(s) == {};
    } else {
      SetNoLarger(s[1..]);
      assert Members(s) == Members(s[1..]) + {s[0]};
    }
  }

  /** Every edge into a listed node comes from a node listed before it. */
  predicate Ordered(edges: seq<Edge<nat>>, order: seq<nat>) {
    forall e <- edges, k | 0 <= k < |order| && order[k] == e.to :: e.from in order[..k]
  }

  lemma OrderedPush(edges: seq<Edge<nat>>, order: seq<nat>, v: nat)
    requires Ordered(edges, order) && v !in order
    requires forall e <- edges :: e.to == v ==> e.from in order
    ensures Ordered(edges, order + [v])
  {
    forall e <- edges, k | 0 <= k < |order + [v]| && (order + [v])[k] == e.to
      ensures e.from in (order + [v])[..k]
    {
      if k < |order| {
        assert (order + [v])[..k] == order[..k];
      } else {
        assert (order + [v])[..k] == order;
      }
    }
  }

  /** A work list that stops short leaves a cycle behind; one that finishes is an order of the nodes. */
  lemma Decides(edges: seq<Edge<nat>>, n: nat, ready: seq<nat>)
    requires forall e <- edges :: e.from < n && e.to < n
    requires NoRepeat(ready) && (forall v <- ready :: v < n) && Ordered(edges, ready)
    requires forall v: nat | v < n :: v !in ready ==> Waiting(edges, v, Members(ready)) > 0
    ensures |ready| == n <==> !Cyclic(edges)
  {
    hide Waiting;
    NoMoreThan(ready, n);
    if |ready| == n {
      ForwardIsAcyclic(edges, ready);
    } else {
      SomeOutside(ready, n);
      var stuck := set v | v in Below(n) && v !in ready;
      var v: nat :| v < n && v !in ready;
      assert v in stuck;
      forall y <- stuck ensures Preceded(edges, stuck, y) {
        WaitingForNone(edges, y, Members(ready));
        var e :| e in edges && e.to == y && e.from !in ready;
        assert e.from in Below(n);
      }
      Trapped(edges, stuck);
    }
  }

  /** The listed nodes are those nothing waits for, each after everything it depends on. */
  ghost predicate Listed(edges: seq<Edge<nat>>, counts: seq<nat>, ready: seq<nat>) {
    && NoRepeat(ready) && (forall v <- ready :: v < |counts|) && Ordered(edges, ready)
    && (forall v | 0 <= v < |counts| :: v in ready <==> counts[v] == 0)
  }

  /** Counts once `done` is processed, with the edges to `pending` of one more node still to be counted off. */
  ghost predicate Counted(edges: seq<Edge<nat>>, counts: seq<nat>, done: set<nat>, pending: seq<nat>) {
    forall v | 0 <= v < |counts| :: counts[v] == Waiting(edges, v, done) + multiset(pending)[v]
  }

  lemma CountsRelease(edges: seq<Edge<nat>>, counts: seq<nat>, done: set<nat>, u: nat)
    requires Counted(edges, counts, done, []) && u !in done
    ensures Counted(edges, counts, done + {u}, Dependents(edges, u))
  {
    hide Waiting, Dependents;
    forall v | 0 <= v < |counts|
      ensures counts[v] == Waiting(edges, v, done + {u}) + multiset(Dependents(edges, u))[v]
    {
      Released(edges, u, v, done);
      assert multiset(NONE)[v] == 0;
    }
  }

  /** Counting one edge off `pending[0]`. */
  lemma CountedOff(edges: seq<Edge<nat>>, counts: seq<nat>, done: set<nat>, pending: seq<nat>)
    requires Counted(edges, counts, done, pending) && pending != [] && pending[0] < |counts|
    ensures counts[pending[0]] > 0
    ensures Counted(edges, counts[pending[0] := counts[pending[0]] - 1], done, pending[1..])
  {
    hide Waiting;
    var v, rest := pending[0], pending[1..];
    assert pending == [v] + rest;
    assert multiset(pending) == multiset{v} + multiset(rest);
    assert counts[v] == Waiting(edges, v, done) + multiset(pending)[v];
  }

  /** Counting down keeps the list right, given that a node reaching zero joins it. */
  lemma ListedStep(edges: seq<Edge<nat>>, counts: seq<nat>, ready: seq<nat>, done: set<nat>,
                   v: nat, pending: seq<nat>)
    requires Listed(edges, counts, ready) && v < |counts| && counts[v] > 0 && forall u <- done :: u in ready
    requires Counted(edges, counts[v := counts[v] - 1], done, pending)
    ensures counts[v] > 1 ==> Listed(edges, counts[v := counts[v] - 1], ready)
    ensures counts[v] == 1 ==> Listed(edges, counts[v := 0], ready + [v])
  {
    hide Waiting, Ordered;
    if counts[v] == 1 {
      WaitingForNone(edges, v, done);
      OrderedPush(edges, ready, v);
      var next := counts[v := 0];
      forall u | 0 <= u < |next| ensures u in ready + [v] <==> next[u] == 0 {
        assert u in ready <==> counts[u] == 0;
      }
    }
  }

  /** The initial list: every node no edge goes into, in ascending order. */
  method Sources(ghost edges: seq<Edge<nat>>, counts: array<nat>) returns (ready: seq<nat>)
    requires Counted(edges, counts[..], {}, [])
    ensures Listed(edges, counts[..], ready)
  {
    hide Waiting, Ordered;
    ready := [];
    assert Ordered(edges, ready) by { EmptyOrdered(edges); }
    for i := 0 to counts.Length
      invariant NoRepeat(ready) && Ordered(edges, ready)
      invariant forall v <- ready :: v < i
      invariant forall v | 0 <= v < i :: v in ready <==> counts[v] == 0
    {
      if counts[i] == 0 {
        assert counts[..][i] == Waiting(edges, i, {}) + multiset(NONE)[i];
        WaitingForNone(edges, i, {});
        OrderedPush(edges, ready, i);
        ready := ready + [i];
      }
    }
  }

  lemma EmptyOrdered(edges: seq<Edge<nat>>)
    ensures Ordered(edges, [])
  {}

  /** Tabulates who depends on each fact and how many inputs each fact waits for. */
  method Tabulate(endpoints: seq<Endpoints>, n: nat) returns (dependencies: array<seq<nat>>, counts: array<nat>)
    requires Within(endpoints, n)
    ensures fresh(dependencies) && fresh(counts) && dependencies.Length == counts.Length == n
    ensures var edges := Dependencies(endpoints);
            && (forall u | 0 <= u < n :: dependencies[u] == Dependents(edges, u))
            && Counted(edges, counts[..], {}, [])
  {
    dependencies := new seq<nat>[n](_ => []);
    counts := new nat[n](_ => 0);
    ghost var edges := [];
    for i := 0 to |endpoints|
      invariant edges == Dependencies(endpoints[..i])
      invariant forall u | 0 <= u < n :: dependencies[u] == Dependents(edges, u)
      invariant forall v | 0 <= v < n :: counts[v] == Waiting(edges, v, {})
    {
      var e := endpoints[i];
      assert e in endpoints;
      assert endpoints[..i + 1][..i] == endpoints[..i];
      if e.input.Some? {
        ghost var last := Edge(e.input.value, e.result);
        assert (edges + [last])[..|edges|] == edges;
        dependencies[e.input.value] := dependencies[e.input.value] + [e.result];
        counts[e.result] := counts[e.result] + 1;
        edges := edges + [last];
      }
    }
    assert endpoints[..|endpoints|] == endpoints;
  }

  /** Runs the work list down; the witness graph is acyclic exactly when every fact is processed. */
  method IsAcyclic(endpoints: seq<Endpoints>, n: nat) returns (acyclic: bool)
    requires Within(endpoints, n)
    ensures acyclic <==> !Cyclic(Dependencies(endpoints))
  {
    hide Waiting, Dependents, Dependencies, Ordered;
    ghost var edges := Dependencies(endpoints);
    EdgesWithin(endpoints, n);
    var dependencies, counts := Tabulate(endpoints, n);
    var ready: seq<nat> := Sources(edges, counts);
    var processed := 0;
    ghost var done: set<nat> := {};
    NoMoreThan(ready, n);
    while processed < |ready|
      invariant processed <= |ready| <= n
      invariant forall u | 0 <= u < n :: dependencies[u] == Dependents(edges, u)
      invariant Listed(edges, counts[..], ready) && Counted(edges, counts[..], done, [])
      invariant done == Members(ready[..processed])
      decreases n - processed
    {
      var u := ready[processed];
      assert u in ready && u < n;
      assert u !in ready[..processed];
      CountsRelease(edges, counts[..], done, u);
      assert Members(ready[..processed + 1]) == done + {u};
      done := done + {u};
      processed := processed + 1;
      var dependents := dependencies[u];
      DependentsWithin(edges, u, n);
      ready := CountOff(edges, counts, ready, processed, dependents);
      NoMoreThan(ready, n);
    }
    assert ready[..processed] == ready;
    forall v: nat | v < n && v !in ready ensures Waiting(edges, v, Members(ready)) > 0 {
      assert counts[..][v] == Waiting(edges, v, done) + multiset(NONE)[v];
    }
    Decides(edges, n, ready);
    acyclic := processed == n;
  }

  lemma EdgesWithin(endpoints: seq<Endpoints>, n: nat)
    requires Within(endpoints, n)
    ensures forall e <- Dependencies(endpoints) :: e.from < n && e.to < n
  {
    forall e <- Dependencies(endpoints) ensures e.from < n && e.to < n {
      DependenciesHold(endpoints, e);
    }
  }

  /** Counts one processed fact's dependents off, listing each that waits for nothing more. */
  method CountOff(ghost edges: seq<Edge<nat>>, counts: array<nat>, listed: seq<nat>, ghost processed: nat,
                  dependents: seq<nat>) returns (ready: seq<nat>)
    requires processed <= |listed| && Listed(edges, counts[..], listed)
    requires Counted(edges, counts[..], Members(listed[..processed]), dependents)
    requires forall v <- dependents :: v < counts.Length
    modifies counts
    ensures listed <= ready && Listed(edges, counts[..], ready)
    ensures Counted(edges, counts[..], Members(listed[..processed]), [])
  {
    hide Listed, Counted;
    ghost var done := Members(listed[..processed]);
    ready := listed;
    for j := 0 to |dependents|
      invariant listed <= ready && Listed(edges, counts[..], ready)
      invariant Counted(edges, counts[..], done, dependents[j..])
    {
      var v := dependents[j];
      assert v in dependents && dependents[j..][0] == v && dependents[j..][1..] == dependents[j + 1..];
      CountedOff(edges, counts[..], done, dependents[j..]);
      ListedStep(edges, counts[..], ready, done, v, dependents[j + 1..]);
      counts[v] := counts[v] - 1;
      if counts[v] == 0 {
        ready := ready + [v];
      }
    }
    assert dependents[|dependents|..] == [];
  }
}
