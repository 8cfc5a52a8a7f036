/** Deterministic ordering of flow steps (flow_loader.py, `_sort_steps`). */
module FlowLoader {
  import opened Orders
  import opened Precedence
  import opened Flows
  import opened StepOrder

  // ------------------------------------------------ dependency lists of a group

  /** Step id to its `depends_on` list, repetitions included. */
  ghost function DepLists(group: seq<Step>): (m: map<string, seq<string>>)
    ensures m.Keys == StepIds(group)
  {
    map id | id in StepIds(group) :: Deps(StepNamed(group, id))
  }

  /** How many entries of a dependency list are still live. */
  function Count(deps: seq<string>, live: set<string>): nat {
    if deps == [] then 0 else Count(deps[..|deps| - 1], live) + if deps[|deps| - 1] in live then 1 else 0
  }

  /** How often x occurs in q. */
  function Times(q: seq<string>, x: string): nat {
    if q == [] then 0 else Times(q[..|q| - 1], x) + if q[|q| - 1] == x then 1 else 0
  }

  lemma Append(q: seq<string>, y: string)
    ensures forall x :: Times(q + [y], x) == Times(q, x) + if y == x then 1 else 0
    ensures forall live :: Count(q + [y], live) == Count(q, live) + if y in live then 1 else 0
  {
  }

  lemma {:induction false} CountZero(deps: seq<string>, live: set<string>)
    ensures Count(deps, live) == 0 <==> forall d :: d in deps ==> d !in live
  {
    if deps != [] {
      var n := |deps| - 1;
      CountZero(deps[..n], live);
      assert deps == deps[..n] + [deps[n]];
    }
  }

  lemma {:induction false} CountLess(deps: seq<string>, live: set<string>, x: string)
    requires x in live
    ensures Count(deps, live - {x}) + Times(deps, x) == Count(deps, live)
  {
    if deps != [] {
      CountLess(deps[..|deps| - 1], live, x);
    }
  }

  lemma {:induction false} TimesIn(q: seq<string>, x: string)
    ensures Times(q, x) > 0 <==> x in q
  {
    if q != [] {
      var n := |q| - 1;
      TimesIn(q[..n], x);
      assert q == q[..n] + [q[n]];
    }
  }

  lemma {:induction false} TimesTake(q: seq<string>, i: nat, x: string)
    requires i <= |q|
    ensures Times(q[..i], x) <= Times(q, x)
    decreases |q| - i
  {
    if i == |q| {
      TakeAll(q);
    } else {
      TimesTake(q, i + 1, x);
      assert q[..i + 1][..i] == q[..i];
    }
  }

  /** in_degree counts the live dependencies of every step. */
  ghost predicate Pending(m: map<string, seq<string>>, live: set<string>, degree: map<string, int>) {
    degree.Keys == m.Keys && forall x :: x in m ==> degree[x] == Count(m[x], live)
  }

  /** adjacency lists each dependent as often as it names the dependency. */
  ghost predicate Adjacent(m: map<string, seq<string>>, adj: map<string, seq<string>>) {
    adj.Keys == m.Keys && forall d :: d in m ==> Mirrors(m, adj[d], d)
  }

  ghost predicate Mirrors(m: map<string, seq<string>>, q: seq<string>, d: string) {
    forall x :: MirrorsAt(m, q, d, x)
  }

  ghost predicate MirrorsAt(m: map<string, seq<string>>, q: seq<string>, d: string, x: string) {
    Times(q, x) == if x in m then Times(m[x], d) else 0
  }

  lemma MirrorsMore(m: map<string, seq<string>>, m': map<string, seq<string>>, q: seq<string>, q': seq<string>,
                    d: string, id: string, dep: string)
    requires id in m && m' == m[id := m[id] + [dep]]
    requires Mirrors(m, q, d) && q' == if d == dep then q + [id] else q
    ensures Mirrors(m', q', d)
  {
    Append(m[id], dep);
    Append(q, id);
    forall x ensures MirrorsAt(m', q', d, x) { assert MirrorsAt(m, q, d, x); }
  }

  lemma AdjacentMore(m: map<string, seq<string>>, m': map<string, seq<string>>, adj: map<string, seq<string>>,
                     adj': map<string, seq<string>>, id: string, dep: string)
    requires id in m && m' == m[id := m[id] + [dep]]
    requires Adjacent(m, adj) && adj'.Keys == adj.Keys
    requires forall d :: d in m ==> adj'[d] == if d == dep then adj[d] + [id] else adj[d]
    ensures Adjacent(m', adj')
  {
    forall d | d in m' ensures Mirrors(m', adj'[d], d) {
      assert Mirrors(m, adj[d], d);
      MirrorsMore(m, m', adj[d], adj'[d], d, id, dep);
    }
  }

  lemma PendingMore(m: map<string, seq<string>>, degree: map<string, int>, id: string, dep: string)
    requires Pending(m, m.Keys, degree) && id in m
    ensures Pending(m[id := m[id] + [dep]], m.Keys, if dep in m then degree[id := degree[id] + 1] else degree)
  {
  }

  method AddDependency(ghost m: map<string, seq<string>>, adj: map<string, seq<string>>, degree: map<string, int>,
                       id: string, dep: string)
    returns (adj': map<string, seq<string>>, degree': map<string, int>)
    requires Adjacent(m, adj) && Pending(m, m.Keys, degree) && id in m
    ensures Adjacent(m[id := m[id] + [dep]], adj') && Pending(m[id := m[id] + [dep]], m.Keys, degree')
  {
    adj', degree' := adj, degree;
    PendingMore(m, degree, id, dep);
    if dep in adj {
      degree' := degree[id := degree[id] + 1];
      adj' := adj[dep := adj[dep] + [id]];
    }
    AdjacentMore(m, m[id := m[id] + [dep]], adj, adj', id, dep);
  }

  lemma OverwriteTwice(m: map<string, seq<string>>, id: string, a: seq<string>, b: seq<string>)
    requires id in m
    ensures m[id := a][id := b] == m[id := b] && m[id := a].Keys == m.Keys
  {
  }

  method AddDependencies(ghost m: map<string, seq<string>>, adj: map<string, seq<string>>, degree: map<string, int>,
                         id: string, deps: seq<string>)
    returns (adj': map<string, seq<string>>, degree': map<string, int>)
    requires Adjacent(m, adj) && Pending(m, m.Keys, degree) && id in m && m[id] == []
    ensures Adjacent(m[id := deps], adj') && Pending(m[id := deps], m.Keys, degree')
  {
    adj', degree' := adj, degree;
    assert m[id := []] == m;
    ghost var h := m;
    for j := 0 to |deps|
      invariant h == m[id := deps[..j]] && h.Keys == m.Keys && Adjacent(h, adj') && Pending(h, h.Keys, degree')
    {
      TakeNext(deps, j);
      OverwriteTwice(m, id, deps[..j], deps[..j + 1]);
      adj', degree' := AddDependency(h, adj', degree', id, deps[j]);
      h := h[id := h[id] + [deps[j]]];
    }
    TakeAll(deps);
  }

  /** The dependency lists of the first k steps. */
  ghost function Partial(group: seq<Step>, k: nat): map<string, seq<string>>
    requires k <= |group|
  {
    map id | id in StepIds(group) :: if id in StepIds(group[..k]) then Deps(StepNamed(group, id)) else []
  }

  lemma PartialGrows(group: seq<Step>, k: nat)
    requires DistinctIds(group) && k < |group|
    ensures group[k].id in Partial(group, k) && Partial(group, k)[group[k].id] == []
    ensures Partial(group, k + 1) == Partial(group, k)[group[k].id := Deps(group[k])]
  {
    NamedAt(group, k);
    SeenGrows(group, k);
  }

  lemma SeenGrows(group: seq<Step>, k: nat)
    requires DistinctIds(group) && k < |group|
    ensures StepIds(group[..k + 1]) == StepIds(group[..k]) + {group[k].id}
    ensures group[k].id !in StepIds(group[..k])
  {
  }

  lemma NamedAt(group: seq<Step>, k: nat)
    requires DistinctIds(group) && k < |group|
    ensures group[k] in group && group[k].id in StepIds(group) && StepNamed(group, group[k].id) == group[k]
  {
  }

  lemma NothingPartial(group: seq<Step>, adj: map<string, seq<string>>, degree: map<string, int>)
    requires adj == map id | id in StepIds(group) :: []
    requires degree == map id | id in StepIds(group) :: 0
    ensures Adjacent(Partial(group, 0), adj) && Pending(Partial(group, 0), StepIds(group), degree)
  {
  }

  lemma AllPartial(group: seq<Step>)
    ensures Partial(group, |group|) == DepLists(group)
  {
  }

  method Edges(group: seq<Step>) returns (adj: map<string, seq<string>>, degree: map<string, int>)
    requires DistinctIds(group)
    ensures Adjacent(DepLists(group), adj) && Pending(DepLists(group), StepIds(group), degree)
  {
    var ids := StepIds(group);
    adj, degree := map id | id in ids :: [], map id | id in ids :: 0;
    NothingPartial(group, adj, degree);
    ghost var m := Partial(group, 0);
    for k := 0 to |group|
      invariant m == Partial(group, k) && m.Keys == ids && Adjacent(m, adj) && Pending(m, ids, degree)
    {
      PartialGrows(group, k);
      adj, degree := AddDependencies(m, adj, degree, group[k].id, Deps(group[k]));
      m := m[group[k].id := Deps(group[k])];
    }
    AllPartial(group);
  }

  // ------------------------------------------------------------------ one round

  /** x has a live dependency. */
  ghost predicate Waits(m: map<string, seq<string>>, live: set<string>, x: string) {
    x in m && Count(m[x], live) > 0
  }

  /** The queue holds, once each, the steps that waited on `before` and no longer wait on `live`. */
  ghost predicate Freed(m: map<string, seq<string>>, before: set<string>, live: set<string>, queue: seq<string>) {
    Distinct(queue) && forall x :: x in queue <==> Waits(m, before, x) && !Waits(m, live, x)
  }

  /** The counters halfway through `adjacency[sid]`, and what that half freed. */
  ghost predicate Midway(m: map<string, seq<string>>, live: set<string>, part: seq<string>, degree: map<string, int>,
                         queue: seq<string>, queue': seq<string>) {
    && degree.Keys == m.Keys && Distinct(queue')
    && (forall x :: x in m ==> degree[x] == Count(m[x], live) - Times(part, x))
    && (forall x :: x in queue' <==> x in queue || (x in m && x in part && degree[x] == 0))
  }

  lemma NeighborWaits(m: map<string, seq<string>>, live: set<string>, sid: string, neighbors: seq<string>, i: nat)
    requires sid in live && Mirrors(m, neighbors, sid) && i < |neighbors|
    ensures neighbors[i] in m && Count(m[neighbors[i]], live) > Times(neighbors[..i], neighbors[i])
    ensures forall x :: Times(neighbors[..i + 1], x) == Times(neighbors[..i], x) + if neighbors[i] == x then 1 else 0
  {
    var n := neighbors[i];
    TakeNext(neighbors, i);
    Append(neighbors[..i], n);
    TimesTake(neighbors, i + 1, n);
    assert MirrorsAt(m, neighbors, sid, n);
    CountLess(m[n], live, sid);
  }

  method ReleaseOne(ghost m: map<string, seq<string>>, ghost before: set<string>, ghost live: set<string>,
                    ghost sid: string, neighbors: seq<string>, i: nat, degree: map<string, int>,
                    ghost queue: seq<string>, queue1: seq<string>)
    returns (degree': map<string, int>, queue': seq<string>)
    requires sid in live && Mirrors(m, neighbors, sid) && i < |neighbors|
    requires Freed(m, before, live, queue) && Midway(m, live, neighbors[..i], degree, queue, queue1)
    ensures Midway(m, live, neighbors[..i + 1], degree', queue, queue')
  {
    var n := neighbors[i];
    NeighborWaits(m, live, sid, neighbors, i);
    TakeNext(neighbors, i);
    degree' := degree[n := degree[n] - 1];
    queue' := queue1;
    if degree'[n] == 0 {
      queue' := queue1 + [n];
    }
  }

  /** The inner loop over `adjacency[sid]`. */
  method Release(ghost m: map<string, seq<string>>, ghost before: set<string>, ghost live: set<string>,
                 ghost sid: string, neighbors: seq<string>, degree: map<string, int>, queue: seq<string>)
    returns (degree': map<string, int>, queue': seq<string>)
    requires sid in live && live <= before && Mirrors(m, neighbors, sid)
    requires Pending(m, live, degree) && Freed(m, before, live, queue)
    ensures Pending(m, live - {sid}, degree') && Freed(m, before, live - {sid}, queue')
  {
    degree', queue' := degree, queue;
    for i := 0 to |neighbors|
      invariant Midway(m, live, neighbors[..i], degree', queue, queue')
    {
      degree', queue' := ReleaseOne(m, before, live, sid, neighbors, i, degree', queue, queue');
    }
    TakeAll(neighbors);
    FreedMore(m, before, live, sid, neighbors, queue, queue', degree');
  }

  lemma FreedMore(m: map<string, seq<string>>, before: set<string>, live: set<string>, sid: string,
                  neighbors: seq<string>, queue: seq<string>, queue': seq<string>, degree: map<string, int>)
    requires sid in live && live <= before && Mirrors(m, neighbors, sid) && Freed(m, before, live, queue)
    requires Midway(m, live, neighbors, degree, queue, queue')
    ensures Pending(m, live - {sid}, degree) && Freed(m, before, live - {sid}, queue')
  {
    forall x | x in m ensures Count(m[x], live - {sid}) == Count(m[x], live) - Times(neighbors, x) {
      assert MirrorsAt(m, neighbors, sid, x);
      CountLess(m[x], live, sid);
    }
    forall x ensures x in queue' <==> Waits(m, before, x) && !Waits(m, live - {sid}, x) {
      if x in m {
        assert MirrorsAt(m, neighbors, sid, x);
        TimesIn(neighbors, x);
        CountZero(m[x], live);
        CountZero(m[x], before);
      }
    }
  }

  // --------------------------------------------------- candidates in base order

  /** `id_to_order[sid]` */
  function Position(order: map<string, int>, id: string): int { if id in order then order[id] else -1 }

  function Earlier(order: map<string, int>): (string, string) -> bool {
    (a, b) => Position(order, a) < Position(order, b)
  }

  ghost predicate Numbers(group: seq<Step>, order: map<string, int>) {
    order.Keys == StepIds(group) && forall i :: 0 <= i < |group| ==> Position(order, group[i].id) == i
  }

  method NumberSteps(group: seq<Step>) returns (order: map<string, int>)
    requires DistinctIds(group)
    ensures Numbers(group, order)
  {
    order := map[];
    for k := 0 to |group|
      invariant order.Keys == StepIds(group[..k])
      invariant forall i :: 0 <= i < k ==> Position(order, group[i].id) == i
    {
      SeenGrows(group, k);
      order := order[group[k].id := k];
    }
    TakeAll(group);
  }

  /** Positions grow along q, from lo on. */
  ghost predicate Ascends(order: map<string, int>, q: seq<Step>, lo: int) {
    && (forall i :: 0 <= i < |q| ==> Position(order, q[i].id) >= lo)
    && (forall i, j :: 0 <= i < j < |q| ==> Position(order, q[i].id) < Position(order, q[j].id))
  }

  lemma AscendsCons(order: map<string, int>, x: Step, q: seq<Step>, lo: int)
    requires Ascends(order, q, lo + 1)
    ensures Ascends(order, q, lo)
    ensures Position(order, x.id) == lo ==> Ascends(order, [x] + q, lo)
  {
    var r := [x] + q;
    forall i | 0 < i < |r| ensures r[i] == q[i - 1] { }
  }

  lemma SelectNext(group: seq<Step>, lo: nat, ids: set<string>)
    requires lo < |group|
    ensures var rest := Select(group[lo + 1..], ids);
            Select(group[lo..], ids) == if group[lo].id in ids then [group[lo]] + rest else rest
  {
    assert group[lo..][1..] == group[lo + 1..];
  }

  lemma {:induction false} SelectAscends(group: seq<Step>, lo: nat, ids: set<string>, order: map<string, int>)
    requires Numbers(group, order) && lo <= |group|
    ensures Ascends(order, Select(group[lo..], ids), lo)
    decreases |group| - lo
  {
    if lo < |group| {
      SelectAscends(group, lo + 1, ids, order);
      SelectNext(group, lo, ids);
      AscendsCons(order, group[lo], Select(group[lo + 1..], ids), lo);
    }
  }

  /** `sorted(queue, key=lambda sid: id_to_order[sid])` lists the queued steps in group order. */
  lemma SortedQueue(group: seq<Step>, order: map<string, int>, queue: seq<string>)
    requires DistinctIds(group) && SortedBy(Base, group) && Numbers(group, order)
    requires Distinct(queue) && Elems(queue) <= StepIds(group)
    ensures Sort(Earlier(order), queue) == IdsOf(Select(group, Elems(queue)))
  {
    var want := IdsOf(Select(group, Elems(queue)));
    QueueBag(group, queue);
    SortSorts(Earlier(order), queue);
    InGroupOrder(group, order, Elems(queue));
    ApartByPosition(group, order, Sort(Earlier(order), queue), want);
    SortedUnique(Earlier(order), Sort(Earlier(order), queue), want);
  }

  lemma QueueBag(group: seq<Step>, queue: seq<string>)
    requires DistinctIds(group) && SortedBy(Base, group) && Distinct(queue) && Elems(queue) <= StepIds(group)
    ensures var want := IdsOf(Select(group, Elems(queue)));
            multiset(queue) == multiset(want) && Elems(want) == Elems(queue)
  {
    var want := IdsOf(Select(group, Elems(queue)));
    SelectIds(group, GroupGraph(group), Elems(queue));
    forall x ensures x in queue <==> x in want { assert x in Elems(queue) <==> x in Elems(want); }
    DistinctSameElems(queue, want);
  }

  lemma InGroupOrder(group: seq<Step>, order: map<string, int>, ids: set<string>)
    requires Numbers(group, order)
    ensures SortedBy(Earlier(order), IdsOf(Select(group, ids)))
  {
    SelectAscends(group, 0, ids, order);
    assert group[0..] == group;
  }

  lemma ApartByPosition(group: seq<Step>, order: map<string, int>, q: seq<string>, want: seq<string>)
    requires Numbers(group, order) && multiset(q) == multiset(want) && Elems(want) <= StepIds(group)
    ensures KeyedApart(Earlier(order), q)
  {
    forall x, y | x in q && y in q && x != y ensures Position(order, x) != Position(order, y) {
      assert x in multiset(q) && y in multiset(q);
      assert x in Elems(want) && y in Elems(want);
      var i :| 0 <= i < |group| && group[i].id == x;
      var j :| 0 <= j < |group| && group[j].id == y;
    }
  }

  // -------------------------------------------------------------- Kahn in rounds

  /** g and m are the dependency graph and the dependency lists of the group. */
  ghost predicate Describe(group: seq<Step>, g: Graph, m: map<string, seq<string>>) {
    && g.Keys == m.Keys == StepIds(group)
    && forall x :: x in m ==> g[x] == set d | d in m[x] && d in m
  }

  lemma DescribeGroup(group: seq<Step>)
    ensures Describe(group, GroupGraph(group), DepLists(group))
  {
  }

  lemma WaitsIffNotReady(g: Graph, m: map<string, seq<string>>, group: seq<Step>, done: set<string>, x: string)
    requires Describe(group, g, m)
    ensures Waits(m, m.Keys - done, x) <==> x in g && !(g[x] <= done)
  {
    if x in m {
      CountZero(m[x], m.Keys - done);
      if d :| d in m[x] && d in m.Keys - done { assert d in g[x]; }
      if d :| d in g[x] && d !in done { assert d in m[x]; }
    }
  }

  /** What the outer loop keeps. */
  ghost predicate RoundState(g: Graph, m: map<string, seq<string>>, done: set<string>, degree: map<string, int>,
                             queue: seq<string>) {
    && Pending(m, m.Keys - done, degree)
    && Distinct(queue) && Elems(queue) == Ready(g, done)
    && forall x :: x in done && x in g ==> g[x] <= done
  }

  lemma FreedIsReady(group: seq<Step>, g: Graph, m: map<string, seq<string>>, done: set<string>, queue: seq<string>)
    requires Describe(group, g, m) && forall x :: x in done && x in g ==> g[x] <= done
    requires Freed(m, m.Keys - done, m.Keys - (done + Ready(g, done)), queue)
    ensures Elems(queue) == Ready(g, done + Ready(g, done))
  {
    var next := done + Ready(g, done);
    forall x ensures x in queue <==> x in Ready(g, next) {
      WaitsIffNotReady(g, m, group, done, x);
      WaitsIffNotReady(g, m, group, next, x);
    }
  }

  lemma NothingFreed(m: map<string, seq<string>>, before: set<string>)
    ensures Freed(m, before, before, [])
  {
  }

  method Round(group: seq<Step>, order: map<string, int>, ghost g: Graph, ghost m: map<string, seq<string>>,
               adj: map<string, seq<string>>, ghost done: set<string>, degree: map<string, int>, queue: seq<string>)
    returns (candidates: seq<string>, degree': map<string, int>, queue': seq<string>)
    requires DistinctIds(group) && SortedBy(Base, group) && Numbers(group, order)
    requires Describe(group, g, m) && Adjacent(m, adj) && RoundState(g, m, done, degree, queue)
    ensures candidates == IdsOf(Select(group, Ready(g, done)))
    ensures RoundState(g, m, done + Ready(g, done), degree', queue')
  {
    ghost var ready := Ready(g, done);
    candidates := Sort(Earlier(order), queue);
    SortedQueue(group, order, queue);
    SelectIds(group, g, ready);
    degree', queue' := ReleaseAll(m, m.Keys - done, adj, candidates, degree);
    assert m.Keys - done - ready == m.Keys - (done + ready);
    FreedIsReady(group, g, m, done, queue');
  }

  /** The loop over the sorted candidates. */
  method ReleaseAll(ghost m: map<string, seq<string>>, ghost before: set<string>, adj: map<string, seq<string>>,
                    candidates: seq<string>, degree: map<string, int>)
    returns (degree': map<string, int>, queue': seq<string>)
    requires Adjacent(m, adj) && Pending(m, before, degree)
    requires Distinct(candidates) && Elems(candidates) <= before <= m.Keys
    ensures Pending(m, before - Elems(candidates), degree') && Freed(m, before, before - Elems(candidates), queue')
  {
    degree', queue' := degree, [];
    NothingFreed(m, before);
    ghost var live := before;
    for k := 0 to |candidates|
      invariant live <= before && Pending(m, live, degree') && Freed(m, before, live, queue')
      invariant forall x :: x in live <==> x in before && x !in candidates[..k]
    {
      var sid := candidates[k];
      assert sid in Elems(candidates) && sid !in candidates[..k];
      assert Mirrors(m, adj[sid], sid);
      degree', queue' := Release(m, before, live, sid, adj[sid], degree', queue');
      TakeNext(candidates, k);
      live := live - {sid};
    }
    TakeAll(candidates);
    assert live == before - Elems(candidates);
  }

  lemma FirstQueue(group: seq<Step>, g: Graph, m: map<string, seq<string>>, degree: map<string, int>)
    requires DistinctIds(group) && SortedBy(Base, group) && Describe(group, g, m) && Pending(m, m.Keys, degree)
    ensures RoundState(g, m, {}, degree, IdsOf(Select(group, Ready(g, {}))))
    ensures forall x :: x in degree ==> (degree[x] == 0 <==> x in Ready(g, {}))
  {
    assert m.Keys - {} == m.Keys;
    SelectIds(group, g, Ready(g, {}));
    forall x | x in m ensures degree[x] == 0 <==> x in Ready(g, {}) {
      WaitsIffNotReady(g, m, group, {}, x);
    }
  }

  lemma SelectTake(group: seq<Step>, ids: set<string>, k: nat)
    requires k < |group|
    ensures IdsOf(Select(group[..k + 1], ids))
            == IdsOf(Select(group[..k], ids)) + (if group[k].id in ids then [group[k].id] else [])
  {
    TakeNext(group, k);
    SelectConcat(group[..k], [group[k]], ids);
  }

  lemma SelectCons(s: Step, rest: seq<Step>, ids: set<string>)
    ensures Select([s] + rest, ids) == (if s.id in ids then [s] else []) + Select(rest, ids)
  {
  }

  lemma {:induction false} SelectConcat(a: seq<Step>, b: seq<Step>, ids: set<string>)
    ensures Select(a + b, ids) == Select(a, ids) + Select(b, ids)
    decreases |a|
  {
    if a == [] {
      assert a + b == b;
    } else {
      var h := if a[0].id in ids then [a[0]] else [];
      assert a == [a[0]] + a[1..];
      Reassociate([a[0]], a[1..], b);
      SelectCons(a[0], a[1..] + b, ids);
      SelectConcat(a[1..], b, ids);
      Reassociate(h, Select(a[1..], ids), Select(b, ids));
    }
  }

  /** "Enqueue the steps of in-degree 0 in the existing order." */
  method InitialQueue(group: seq<Step>, ghost g: Graph, ghost m: map<string, seq<string>>, degree: map<string, int>)
      returns (queue: seq<string>)
    requires DistinctIds(group) && SortedBy(Base, group) && Describe(group, g, m) && Pending(m, m.Keys, degree)
    ensures RoundState(g, m, {}, degree, queue)
  {
    queue := [];
    ghost var ready := Ready(g, {});
    FirstQueue(group, g, m, degree);
    for k := 0 to |group|
      invariant queue == IdsOf(Select(group[..k], ready))
    {
      assert group[k] in group;
      SelectTake(group, ready, k);
      if degree[group[k].id] == 0 {
        queue := queue + [group[k].id];
      }
    }
    TakeAll(group);
  }

  lemma UnfoldLayers(group: seq<Step>, g: Graph, done: set<string>, topo: seq<string>)
    requires Ready(g, done) != {}
    ensures var ready := Ready(g, done);
            (topo + IdsOf(Select(group, ready))) + IdsOf(Layers(group, g, done + ready))
                == topo + IdsOf(Layers(group, g, done))
    ensures Ready(g, done) <= g.Keys - done
  {
    var first, rest := Select(group, Ready(g, done)), Layers(group, g, done + Ready(g, done));
    IdsOfConcat(first, rest);
    Reassociate(topo, IdsOf(first), IdsOf(rest));
  }

  method KahnRounds(group: seq<Step>, ghost g: Graph, ghost m: map<string, seq<string>>, order: map<string, int>,
                    adj: map<string, seq<string>>, degree0: map<string, int>, queue0: seq<string>)
      returns (topo: seq<string>)
    requires DistinctIds(group) && SortedBy(Base, group) && Numbers(group, order)
    requires Describe(group, g, m) && Adjacent(m, adj) && RoundState(g, m, {}, degree0, queue0)
    ensures topo == IdsOf(Layers(group, g, {}))
  {
    var degree, queue := degree0, queue0;
    topo := [];
    ghost var done := {};
    assert [] + IdsOf(Layers(group, g, {})) == IdsOf(Layers(group, g, {}));
    while queue != []
      invariant RoundState(g, m, done, degree, queue)
      invariant topo + IdsOf(Layers(group, g, done)) == IdsOf(Layers(group, g, {}))
      decreases g.Keys - done
    {
      assert queue[0] in Elems(queue);
      UnfoldLayers(group, g, done, topo);
      var candidates;
      candidates, degree, queue := Round(group, order, g, m, adj, done, degree, queue);
      topo := topo + candidates;
      done := done + Ready(g, done);
    }
    assert Ready(g, done) == {};
  }

  method TopoOrder(group: seq<Step>) returns (topo: seq<string>)
    requires DistinctIds(group) && SortedBy(Base, group)
    ensures topo == IdsOf(Layers(group, GroupGraph(group), {}))
  {
    ghost var g, m := GroupGraph(group), DepLists(group);
    DescribeGroup(group);
    var order := NumberSteps(group);
    var adj, degree := Edges(group);
    var queue := InitialQueue(group, g, m, degree);
    topo := KahnRounds(group, g, m, order, adj, degree, queue);
  }

  // ------------------------------------------------------------------ one phase

  lemma NoDependencies(group: seq<Step>)
    requires DistinctIds(group) && forall s :: s in group ==> Deps(s) == []
    ensures SortGroup(group) == group
  {
    var g := GroupGraph(group);
    assert Ready(g, {}) == StepIds(group);
    assert {} + Ready(g, {}) == g.Keys;
    SelectAll(group, StepIds(group));
    if group != [] {
      assert group[0] in group && group[0].id in StepIds(group);
      assert Layers(group, g, {}) == group + Layers(group, g, g.Keys);
      assert Ready(g, g.Keys) == {};
    }
  }

  /** `id_to_step`, applied to the topological order. */
  method LookUp(group: seq<Step>, topo: seq<string>, ghost q: seq<Step>) returns (r: seq<Step>)
    requires DistinctIds(group) && topo == IdsOf(q) && forall s :: s in q ==> s in group
    ensures r == q
  {
    var byId := map s | s in group :: s.id := s;
    r := [];
    for i := 0 to |topo|
      invariant r == q[..i]
    {
      assert topo[i] == q[i].id && q[i] in q;
      assert byId[q[i].id] == q[i] by { SameIdSameStep(group, byId[q[i].id], q[i]); }
      r := r + [byId[topo[i]]];
    }
    TakeAll(q);
  }

  lemma SameIdSameStep(group: seq<Step>, a: Step, b: Step)
    requires DistinctIds(group) && a in group && b in group && a.id == b.id
    ensures a == b
  {
  }

  method SortPhase(group: seq<Step>) returns (r: seq<Step>)
    requires DistinctIds(group) && SortedBy(Base, group)
    ensures r == SortGroup(group)
  {
    if forall s | s in group :: Deps(s) == [] {
      NoDependencies(group);
      return group;
    }
    var topo := TopoOrder(group);
    if |topo| != |group| {
      r := group;
    } else {
      LayersOrdered(group, GroupGraph(group), 0);
      r := LookUp(group, topo, Layers(group, GroupGraph(group), {}));
    }
  }

  // ----------------------------------------------------------------- _sort_steps

  /** `phase_order.get(phase, 999)`: the last position of a phase, 999 for an unknown one. */
  function PhaseRank(phases: seq<string>, phase: string): int {
    if phases == [] then 999
    else if phases[|phases| - 1] == phase then |phases| - 1
    else PhaseRank(phases[..|phases| - 1], phase)
  }

  /** The sort key (phase, priority, id). */
  function ByKey(phases: seq<string>): (Step, Step) -> bool {
    (a: Step, b: Step) => PhaseRank(phases, a.phase) < PhaseRank(phases, b.phase)
              || (PhaseRank(phases, a.phase) == PhaseRank(phases, b.phase) && Base(a, b))
  }

  /** The sorted groups one after the other, in the order of the phase list. */
  ghost function Grouped(phases: seq<string>, sorted: seq<Step>): seq<Step> {
    if phases == [] then []
    else Grouped(phases[..|phases| - 1], sorted) + SortGroup(InPhase(sorted, phases[|phases| - 1]))
  }

  ghost function SortedSteps(steps: seq<Step>, phases: seq<string>): seq<Step> {
    Grouped(phases, Sort(ByKey(phases), steps))
  }

  lemma ByKeyIsStrictWeakOrder(phases: seq<string>)
    ensures StrictWeakOrder(ByKey(phases))
  {
    BaseIsStrictWeakOrder();
  }

  lemma {:induction false} InPhaseIn(q: seq<Step>, phase: string)
    ensures forall s :: s in InPhase(q, phase) <==> s in q && s.phase == phase
    decreases q
  {
    if q != [] {
      InPhaseIn(q[1..], phase);
      assert q == [q[0]] + q[1..];
    }
  }

  /** What comes before the rest of a sorted list comes before everything picked from it. */
  lemma PickedLater(phases: seq<string>, q: seq<Step>, phase: string, k: nat)
    requires q != [] && SortedBy(ByKey(phases), q) && DistinctIds(q) && q[0].phase == phase
    requires k < |InPhase(q[1..], phase)|
    ensures var r := InPhase(q[1..], phase); !Base(r[k], q[0]) && r[k].id != q[0].id
  {
    var r := InPhase(q[1..], phase);
    InPhaseIn(q[1..], phase);
    assert r[k] in r && r[k] in q[1..];
    var j :| 0 <= j < |q[1..]| && q[1..][j] == r[k];
    assert q[j + 1] == r[k];
  }

  lemma SortedCons(x: Step, r: seq<Step>)
    requires SortedBy(Base, r) && DistinctIds(r) && forall k :: 0 <= k < |r| ==> !Base(r[k], x) && r[k].id != x.id
    ensures SortedBy(Base, [x] + r) && DistinctIds([x] + r)
  {
    var q := [x] + r;
    forall k | 0 < k < |q| ensures q[k] == r[k - 1] { }
  }

  lemma {:induction false} InPhaseSorted(phases: seq<string>, q: seq<Step>, phase: string)
    requires SortedBy(ByKey(phases), q) && DistinctIds(q)
    ensures SortedBy(Base, InPhase(q, phase)) && DistinctIds(InPhase(q, phase))
    decreases q
  {
    if q != [] {
      var r := InPhase(q[1..], phase);
      InPhaseSorted(phases, q[1..], phase);
      if q[0].phase == phase {
        forall k | 0 <= k < |r| ensures !Base(r[k], q[0]) && r[k].id != q[0].id { PickedLater(phases, q, phase, k); }
        SortedCons(q[0], r);
      } else {
        assert [] + r == r;
      }
    }
  }

  lemma DistinctIdsPermuted(a: seq<Step>, b: seq<Step>)
    requires DistinctIds(a) && multiset(a) == multiset(b)
    ensures DistinctIds(b)
  {
    assert |multiset(a)| == |multiset(b)|;
    forall i, j | 0 <= i < j < |b| ensures b[i].id != b[j].id {
      if b[i].id == b[j].id {
        assert b[i] in multiset(a) && b[j] in multiset(a);
        SameIdSameStep(a, b[i], b[j]);
        DistinctFromIds(a);
        DistinctMultiplicity(a, b[i]);
        TwiceIn(b, i, j);
      }
    }
  }

  lemma DistinctFromIds(a: seq<Step>)
    requires DistinctIds(a)
    ensures Distinct(a)
  {
  }

  lemma TwiceIn(b: seq<Step>, i: nat, j: nat)
    requires i < j < |b| && b[i] == b[j]
    ensures multiset(b)[b[i]] >= 2
  {
    assert b == b[..i + 1] + b[i + 1..];
    assert b[i + 1..][j - i - 1] == b[j];
    assert b[..i + 1][i] == b[i];
    assert b[i] in multiset(b[..i + 1]) && b[j] in multiset(b[i + 1..]);
  }

  lemma InPhaseNext(q: seq<Step>, s: Step, p: string)
    ensures InPhase(q + [s], p) == if s.phase == p then InPhase(q, p) + [s] else InPhase(q, p)
  {
    InPhaseConcat(q, [s], p);
    InPhaseSingle(s, p);
  }

  lemma InPhaseSingle(s: Step, p: string)
    ensures InPhase([s], p) == if s.phase == p then [s] else []
  {
  }

  /** The group of a phase so far; a phase without a group has no steps. */
  ghost predicate HasGroup(groups: map<string, seq<Step>>, q: seq<Step>, p: string) {
    (if p in groups then groups[p] else []) == InPhase(q, p)
  }

  ghost predicate AllGrouped(groups: map<string, seq<Step>>, q: seq<Step>) { forall p :: HasGroup(groups, q, p) }

  lemma GroupsNext(groups: map<string, seq<Step>>, groups': map<string, seq<Step>>, q: seq<Step>, q': seq<Step>,
                   s: Step)
    requires AllGrouped(groups, q) && q' == q + [s]
    requires groups' == groups[s.phase := (if s.phase in groups then groups[s.phase] else []) + [s]]
    ensures AllGrouped(groups', q')
  {
    forall p ensures HasGroup(groups', q', p) {
      assert HasGroup(groups, q, p);
      InPhaseNext(q, s, p);
    }
  }

  method GroupByPhase(sorted: seq<Step>) returns (groups: map<string, seq<Step>>)
    ensures AllGrouped(groups, sorted)
  {
    groups := map[];
    for k := 0 to |sorted|
      invariant AllGrouped(groups, sorted[..k])
    {
      var s := sorted[k];
      var groups' := groups[s.phase := (if s.phase in groups then groups[s.phase] else []) + [s]];
      TakeNext(sorted, k);
      GroupsNext(groups, groups', sorted[..k], sorted[..k + 1], s);
      groups := groups';
    }
    TakeAll(sorted);
  }

  lemma InPhaseCons(s: Step, rest: seq<Step>, p: string)
    ensures InPhase([s] + rest, p) == (if s.phase == p then [s] else []) + InPhase(rest, p)
  {
  }

  lemma {:induction false} InPhaseConcat(a: seq<Step>, b: seq<Step>, p: string)
    ensures InPhase(a + b, p) == InPhase(a, p) + InPhase(b, p)
    decreases |a|
  {
    if a == [] {
      assert a + b == b;
    } else {
      var h := if a[0].phase == p then [a[0]] else [];
      assert a == [a[0]] + a[1..];
      Reassociate([a[0]], a[1..], b);
      InPhaseCons(a[0], a[1..] + b, p);
      InPhaseConcat(a[1..], b, p);
      Reassociate(h, InPhase(a[1..], p), InPhase(b, p));
    }
  }

  /** The loop over the phases of the flow. */
  method EmitPhases(sorted: seq<Step>, phases: seq<string>, groups: map<string, seq<Step>>) returns (result: seq<Step>)
    requires SortedBy(ByKey(phases), sorted) && DistinctIds(sorted) && AllGrouped(groups, sorted)
    ensures result == Grouped(phases, sorted)
  {
    result := [];
    for i := 0 to |phases|
      invariant result == Grouped(phases[..i], sorted)
    {
      assert phases[..i + 1][..i] == phases[..i];
      assert HasGroup(groups, sorted, phases[i]);
      InPhaseSorted(phases, sorted, phases[i]);
      var group := if phases[i] in groups then groups[phases[i]] else [];
      var r := SortPhase(group);
      result := result + r;
    }
    TakeAll(phases);
  }

  method SortSteps(steps: seq<Step>, phases: seq<string>) returns (result: seq<Step>)
    requires DistinctIds(steps)
    ensures result == SortedSteps(steps, phases)
  {
    var sorted := Sort(ByKey(phases), steps);
    SortSorts(ByKey(phases), steps);
    ByKeyIsStrictWeakOrder(phases);
    DistinctIdsPermuted(steps, sorted);
    var groups := GroupByPhase(sorted);
    result := EmitPhases(sorted, phases, groups);
  }
}
