/** The closed form of layered topological sorting inside one phase (flow_loader.py, `_sort_steps`). */
module StepOrder {
  import opened Orders
  import opened Precedence
  import opened Flows

  // ---------------------------------------------------------------- base order

  /** The existing order inside a phase: priority, then id. */
  predicate Base(a: Step, b: Step) {
    a.priority < b.priority || (a.priority == b.priority && StrLess(a.id, b.id))
  }

  /** Prerequisites of each step that lie in the same group; others are ignored. */
  ghost function GroupGraph(group: seq<Step>): (g: Graph)
    ensures g.Keys == StepIds(group)
    ensures ClosedGraph(g)
  {
    map id | id in StepIds(group) :: (set d | d in Deps(StepNamed(group, id)) && d in StepIds(group))
  }

  ghost function StepNamed(group: seq<Step>, id: string): (s: Step)
    requires id in StepIds(group)
    ensures s in group && s.id == id
  {
    var s :| s in group && s.id == id;
    s
  }

  // -------------------------------------------------------------------- layers

  /** The steps emitted in the first k rounds. */
  ghost function Rounds(g: Graph, k: nat): set<string> {
    if k == 0 then {} else Rounds(g, k - 1) + Ready(g, Rounds(g, k - 1))
  }

  /** A chain of k dependencies starts at x. */
  ghost predicate HasChain(g: Graph, x: string, k: nat) {
    exists w :: Walk(g, w) && w[0] == x && |w| == k + 1
  }

  ghost predicate LongestChain(g: Graph, x: string, k: nat) {
    HasChain(g, x, k) && !HasChain(g, x, k + 1)
  }

  lemma {:induction false} RoundsClosed(g: Graph, k: nat, x: string)
    requires x in Rounds(g, k)
    ensures x in g && g[x] <= Rounds(g, k)
    ensures k > 0 && g[x] <= Rounds(g, k - 1)
  {
    if x in Ready(g, Rounds(g, k - 1)) {
    } else {
      RoundsClosed(g, k - 1, x);
    }
  }

  lemma ChainStep(g: Graph, x: string, k: nat)
    requires x in g && ClosedGraph(g)
    ensures HasChain(g, x, k + 1) <==> exists d :: d in g[x] && HasChain(g, d, k)
  {
    if HasChain(g, x, k + 1) {
      var w :| Walk(g, w) && w[0] == x && |w| == k + 2;
      assert w[1] in g[w[0]] && Walk(g, w[1..]);
      assert HasChain(g, w[1], k);
    }
    if d :| d in g[x] && HasChain(g, d, k) {
      var w :| Walk(g, w) && w[0] == d && |w| == k + 1;
      assert Walk(g, [x] + w);
    }
  }

  /** A step is still waiting after k rounds exactly when a chain of k dependencies starts at it. */
  lemma {:induction false} WaitingIffChain(g: Graph, x: string, k: nat)
    requires ClosedGraph(g) && x in g
    ensures x !in Rounds(g, k) <==> HasChain(g, x, k)
    decreases k
  {
    if k == 0 {
      assert Walk(g, [x]);
    } else {
      var before := Rounds(g, k - 1);
      ChainStep(g, x, k - 1);
      forall d | d in g[x] ensures d !in before <==> HasChain(g, d, k - 1) {
        WaitingIffChain(g, d, k - 1);
      }
      assert x !in Rounds(g, k) <==> exists d :: d in g[x] && d !in before by {
        if x in Rounds(g, k) { RoundsClosed(g, k, x); }
      }
    }
  }

  /** Each round as a list in group order, one after the other. */
  ghost function Layers(group: seq<Step>, g: Graph, done: set<string>): seq<Step>
    decreases g.Keys - done
  {
    if Ready(g, done) == {} then []
    else
      assert Ready(g, done) <= g.Keys - done;
      Select(group, Ready(g, done)) + Layers(group, g, done + Ready(g, done))
  }

  /** What `_sort_steps` puts in place of a group in base order. */
  ghost function SortGroup(group: seq<Step>): seq<Step> {
    var q := Layers(group, GroupGraph(group), {});
    if |q| == |group| then q else group
  }

  // ------------------------------------------------- selecting and arrangement

  lemma {:induction false} SelectIn(q: seq<Step>, ids: set<string>)
    ensures forall s :: s in Select(q, ids) <==> s in q && s.id in ids
    ensures |Select(q, ids)| <= |q|
    decreases q
  {
    if q != [] {
      SelectIn(q[1..], ids);
      assert q == [q[0]] + q[1..];
    }
  }

  lemma PrependKeepsOrder(x: Step, r: seq<Step>)
    requires SortedBy(Base, r) && DistinctIds(r)
    requires forall k :: 0 <= k < |r| ==> !Base(r[k], x) && r[k].id != x.id
    ensures SortedBy(Base, [x] + r) && DistinctIds([x] + r)
  {
  }

  lemma TailKeepsOrder(q: seq<Step>)
    requires q != [] && SortedBy(Base, q) && DistinctIds(q)
    ensures SortedBy(Base, q[1..]) && DistinctIds(q[1..])
    ensures forall s :: s in q[1..] ==> !Base(s, q[0]) && s.id != q[0].id
  {
  }

  lemma {:induction false} SelectKeepsOrder(q: seq<Step>, ids: set<string>)
    requires DistinctIds(q)
    requires SortedBy(Base, q)
    ensures SortedBy(Base, Select(q, ids)) && DistinctIds(Select(q, ids))
    decreases q
  {
    if q != [] {
      var r := Select(q[1..], ids);
      TailKeepsOrder(q);
      SelectKeepsOrder(q[1..], ids);
      SelectIn(q[1..], ids);
      forall k | 0 <= k < |r| ensures !Base(r[k], q[0]) && r[k].id != q[0].id { assert r[k] in q[1..]; }
      PrependKeepsOrder(q[0], r);
      assert [] + r == r;
    }
  }

  lemma {:induction false} SelectAll(q: seq<Step>, ids: set<string>)
    requires StepIds(q) <= ids
    ensures Select(q, ids) == q
    decreases q
  {
    if q != [] {
      assert q[0] in q && q[0].id in StepIds(q);
      assert forall s :: s in q[1..] ==> s in q;
      SelectAll(q[1..], ids);
    }
  }

  lemma BaseIsStrictWeakOrder()
    ensures StrictWeakOrder(Base)
  {
    StrLessTotalOrder();
    forall x, y, z | !Base(x, y) && !Base(y, z) ensures !Base(x, z) { }
  }

  lemma BaseStrict(q: seq<Step>, i: nat, j: nat)
    requires SortedBy(Base, q) && DistinctIds(q) && i < j < |q|
    ensures Base(q[i], q[j])
  {
    StrLessConnected(q[i].id, q[j].id);
  }

  // ------------------------------------------------------------ the closed form

  /** x comes before y by (longest dependency chain, priority, id). */
  ghost predicate Precedes(g: Graph, x: Step, y: Step) {
    exists a, b :: LongestChain(g, x.id, a) && LongestChain(g, y.id, b) && (a < b || (a == b && Base(x, y)))
  }

  lemma PrecedesBy(g: Graph, x: Step, y: Step, a: nat, b: nat)
    requires LongestChain(g, x.id, a) && LongestChain(g, y.id, b) && (a < b || (a == b && Base(x, y)))
    ensures Precedes(g, x, y)
  {
  }

  lemma RoundIsDepth(g: Graph, k: nat, x: string)
    requires ClosedGraph(g) && x in Ready(g, Rounds(g, k))
    ensures LongestChain(g, x, k)
  {
    WaitingIffChain(g, x, k);
    WaitingIffChain(g, x, k + 1);
  }

  /** Every step of q is a member of the group whose longest chain has at least k dependencies. */
  ghost predicate Deep(group: seq<Step>, g: Graph, q: seq<Step>, k: nat) {
    forall s :: s in q ==> s in group && exists m :: m >= k && LongestChain(g, s.id, m)
  }

  ghost predicate Ordered(g: Graph, q: seq<Step>) {
    forall i, j :: 0 <= i < j < |q| ==> Precedes(g, q[i], q[j])
  }

  /** A layer of depth k, in base order. */
  ghost predicate Layer(group: seq<Step>, g: Graph, first: seq<Step>, k: nat) {
    SortedBy(Base, first) && DistinctIds(first) && forall s :: s in first ==> s in group && LongestChain(g, s.id, k)
  }

  lemma LayerFirst(group: seq<Step>, g: Graph, first: seq<Step>, rest: seq<Step>, k: nat, i: nat, j: nat)
    requires Layer(group, g, first, k) && Deep(group, g, rest, k + 1) && i < |first| && i < j < |first| + |rest|
    ensures Precedes(g, first[i], (first + rest)[j])
  {
    assert first[i] in first;
    if j < |first| {
      assert first[j] in first;
      BaseStrict(first, i, j);
      PrecedesBy(g, first[i], first[j], k, k);
    } else {
      var s := rest[j - |first|];
      assert s in rest;
      var m :| m >= k + 1 && LongestChain(g, s.id, m);
      PrecedesBy(g, first[i], s, k, m);
    }
  }

  lemma LayerOrdered(group: seq<Step>, g: Graph, first: seq<Step>, rest: seq<Step>, k: nat)
    requires Layer(group, g, first, k) && Deep(group, g, rest, k + 1) && Ordered(g, rest)
    ensures Deep(group, g, first + rest, k) && Ordered(g, first + rest)
  {
    var q := first + rest;
    forall i, j | 0 <= i < j < |q| ensures Precedes(g, q[i], q[j]) {
      if i < |first| {
        LayerFirst(group, g, first, rest, k, i, j);
      } else {
        assert Precedes(g, rest[i - |first|], rest[j - |first|]);
      }
    }
    forall s | s in q ensures s in group && exists m :: m >= k && LongestChain(g, s.id, m) {
      if s in rest { var m :| m >= k + 1 && LongestChain(g, s.id, m); }
    }
  }

  lemma {:induction false} LayersOrdered(group: seq<Step>, g: Graph, k: nat)
    requires ClosedGraph(g) && DistinctIds(group) && SortedBy(Base, group)
    ensures var q := Layers(group, g, Rounds(g, k)); Deep(group, g, q, k) && Ordered(g, q)
    decreases g.Keys - Rounds(g, k)
  {
    var ready := Ready(g, Rounds(g, k));
    if ready != {} {
      assert ready <= g.Keys - Rounds(g, k);
      assert Rounds(g, k + 1) == Rounds(g, k) + ready;
      var first, rest := Select(group, ready), Layers(group, g, Rounds(g, k + 1));
      LayersOrdered(group, g, k + 1);
      SelectIn(group, ready);
      SelectKeepsOrder(group, ready);
      forall s | s in first ensures LongestChain(g, s.id, k) { RoundIsDepth(g, k, s.id); }
      LayerOrdered(group, g, first, rest, k);
    }
  }

  /** Emitting ready steps in any order, then continuing, is a legal continuation. */
  lemma {:induction false} EmitLayer(g: Graph, done: set<string>, layer: seq<string>, rest: seq<string>)
    requires Distinct(layer) && (forall x :: x in layer ==> x in Ready(g, done))
    requires Continues(g, done + Elems(layer), rest)
    ensures Continues(g, done, layer + rest)
    decreases |layer|
  {
    if layer == [] {
      assert done + Elems(layer) == done && layer + rest == rest;
    } else {
      var tail := layer[1..];
      assert layer == [layer[0]] + tail;
      assert done + {layer[0]} + Elems(tail) == done + Elems(layer);
      forall x | x in tail ensures x in Ready(g, done + {layer[0]}) {
        assert x in layer && x != layer[0];
        assert x in Ready(g, done);
      }
      assert (layer + rest)[1..] == tail + rest;
      EmitLayer(g, done + {layer[0]}, tail, rest);
    }
  }

  lemma SelectIds(group: seq<Step>, g: Graph, ready: set<string>)
    requires g.Keys == StepIds(group) && DistinctIds(group) && SortedBy(Base, group) && ready <= g.Keys
    ensures Distinct(IdsOf(Select(group, ready))) && Elems(IdsOf(Select(group, ready))) == ready
  {
    SelectIn(group, ready);
    SelectKeepsOrder(group, ready);
    var q := Select(group, ready);
    forall x | x in ready ensures x in IdsOf(q) {
      var s :| s in group && s.id == x;
      var i :| 0 <= i < |q| && q[i] == s;
      assert IdsOf(q)[i] == x;
    }
    forall x | x in IdsOf(q) ensures x in ready {
      var i :| 0 <= i < |q| && IdsOf(q)[i] == x;
      assert q[i] in q;
    }
  }

  lemma {:induction false} LayersContinue(group: seq<Step>, g: Graph, done: set<string>)
    requires g.Keys == StepIds(group) && DistinctIds(group) && SortedBy(Base, group)
    ensures Continues(g, done, IdsOf(Layers(group, g, done)))
    decreases g.Keys - done
  {
    var ready := Ready(g, done);
    if ready != {} {
      assert ready <= g.Keys - done;
      LayersContinue(group, g, done + ready);
      LayerThenRest(group, g, done, Layers(group, g, done + ready));
    }
  }

  lemma IdsOfConcat(a: seq<Step>, b: seq<Step>)
    ensures IdsOf(a + b) == IdsOf(a) + IdsOf(b)
  {
  }

  lemma LayerThenRest(group: seq<Step>, g: Graph, done: set<string>, rest: seq<Step>)
    requires g.Keys == StepIds(group) && DistinctIds(group) && SortedBy(Base, group)
    requires Continues(g, done + Ready(g, done), IdsOf(rest))
    ensures Continues(g, done, IdsOf(Select(group, Ready(g, done)) + rest))
  {
    var first := Select(group, Ready(g, done));
    SelectIds(group, g, Ready(g, done));
    forall x | x in IdsOf(first) ensures x in Ready(g, done) { assert x in Elems(IdsOf(first)); }
    EmitLayer(g, done, IdsOf(first), IdsOf(rest));
    IdsOfConcat(first, rest);
  }

  lemma CountIds(group: seq<Step>)
    requires DistinctIds(group)
    ensures |StepIds(group)| == |group|
  {
    DistinctCard(IdsOf(group));
    assert forall i :: 0 <= i < |group| ==> group[i].id == IdsOf(group)[i];
    assert Elems(IdsOf(group)) == StepIds(group);
  }

  /** The layers cover the group exactly when its dependencies have no cycle. */
  lemma LayersCompleteIffAcyclic(group: seq<Step>)
    requires DistinctIds(group) && SortedBy(Base, group)
    ensures var g := GroupGraph(group);
            && (|Layers(group, g, {})| == |group| <==> Acyclic(g))
            && Distinct(IdsOf(Layers(group, g, {})))
  {
    var g := GroupGraph(group);
    var ids := IdsOf(Layers(group, g, {}));
    LayersContinue(group, g, {});
    assert Elems<string>([]) == {} && [] + ids == ids;
    ContinuesIffMaximal(g, [], ids);
    CompleteIffAcyclic(g, ids);
    CompleteByCount(g, ids);
    CountIds(group);
  }

  lemma SameSteps(a: seq<Step>, b: seq<Step>)
    requires DistinctIds(a) && Distinct(IdsOf(b)) && |a| == |b| && forall s :: s in b ==> s in a
    ensures multiset(a) == multiset(b)
  {
    assert Distinct(b) by {
      forall i, j | 0 <= i < j < |b| ensures b[i] != b[j] { assert IdsOf(b)[i] != IdsOf(b)[j]; }
    }
    DistinctCard(a);
    DistinctCard(b);
    EqualByCount(Elems(b), Elems(a));
    forall s ensures s in a <==> s in b { assert s in Elems(a) <==> s in Elems(b); }
    DistinctSameElems(a, b);
  }

  lemma EqualByCount<T>(a: set<T>, b: set<T>)
    requires a <= b && |a| == |b|
    ensures a == b
  {
    if x :| x in b && x !in a {
      SubsetCard(a, b - {x});
    }
  }

  /** Sorting a group rearranges it; an acyclic one ends up strictly ordered by (longest chain, priority, id), a cyclic
      one keeps its base order. */
  lemma SortGroupClosedForm(group: seq<Step>)
    requires DistinctIds(group) && SortedBy(Base, group)
    ensures multiset(SortGroup(group)) == multiset(group)
    ensures !Acyclic(GroupGraph(group)) ==> SortGroup(group) == group
    ensures Acyclic(GroupGraph(group)) ==>
      forall i, j :: 0 <= i < j < |group| ==> Precedes(GroupGraph(group), SortGroup(group)[i], SortGroup(group)[j])
  {
    var g := GroupGraph(group);
    var q := Layers(group, g, {});
    LayersOrdered(group, g, 0);
    LayersCompleteIffAcyclic(group);
    if |q| == |group| { SameSteps(group, q); }
  }

  /** Dependencies inside an acyclic group are respected. */
  lemma PrecedesRespectsDependencies(g: Graph, x: Step, y: Step)
    requires ClosedGraph(g) && y.id in g && x.id in g[y.id]
    ensures !Precedes(g, y, x)
  {
    if Precedes(g, y, x) {
      var a: nat, b: nat :| LongestChain(g, y.id, a) && LongestChain(g, x.id, b) && (a < b || (a == b && Base(y, x)));
      ChainStep(g, y.id, b);
      ChainShrinks(g, y.id, a, b + 1);
    }
  }

  lemma {:induction false} ChainShrinks(g: Graph, x: string, a: nat, b: nat)
    requires HasChain(g, x, b) && a < b
    ensures HasChain(g, x, a + 1)
  {
    var w :| Walk(g, w) && w[0] == x && |w| == b + 1;
    assert Walk(g, w[..a + 2]);
  }

  lemma LongestChainUnique(g: Graph, x: string, a: nat, b: nat)
    requires LongestChain(g, x, a) && LongestChain(g, x, b)
    ensures a == b
  {
    if a < b { ChainShrinks(g, x, a, b); }
    if b < a { ChainShrinks(g, x, b, a); }
  }

  /** The order of an acyclic group is strict, so the closed form leaves only one arrangement. */
  lemma PrecedesAsymmetric(g: Graph, x: Step, y: Step)
    requires Precedes(g, x, y)
    ensures !Precedes(g, y, x)
  {
    if Precedes(g, y, x) {
      var a: nat, b: nat :| LongestChain(g, x.id, a) && LongestChain(g, y.id, b) && (a < b || (a == b && Base(x, y)));
      var c: nat, d: nat :| LongestChain(g, y.id, c) && LongestChain(g, x.id, d) && (c < d || (c == d && Base(y, x)));
      LongestChainUnique(g, x.id, a, d);
      LongestChainUnique(g, y.id, b, c);
      StrLessTotalOrder();
    }
  }
}
