/** What the pack load order promises, and the validator that must agree with it (dependency_resolver.py). */
module LoadOrder {
  import opened Orders
  import opened Precedence
  import opened DependencyResolver

  // ---------------------------------------------------------- resolve_load_order
  // The graph g below is any `DependencyGraph(packs)`; `Outcome(g, soft)` is what `ResolveLoadOrder` returns.

  /** Without cycles the load order is the lexicographically least of all orders that put every installed dependency
      first, so it is unique and does not depend on soft mode. */
  lemma AcyclicLoadOrder(g: Graph, soft: bool)
    requires ClosedGraph(g) && Acyclic(g)
    ensures Outcome(g, soft).Loaded? && Topological(g, Outcome(g, soft).order)
    ensures forall t :: Topological(g, t) ==> LexLe(Outcome(g, soft).order, t)
  {
    LeftoverEntangled(g);
    LeastFirstCorrect(g);
    CompleteIffAcyclic(g, LeastFirst(g, {}));
    forall t | Topological(g, t) ensures Maximal(g, t) { }
  }

  /** The set on or downstream of a cycle. */
  ghost function Entangled(g: Graph): set<string> {
    set x | x in g && BehindCycle(g, x)
  }

  lemma EntangledIsRest(g: Graph, q: seq<string>)
    requires ClosedGraph(g) && Maximal(g, q)
    ensures Entangled(g) == g.Keys - Elems(q)
  {
    LeftoverExactly(g, q);
  }

  lemma LeftoverEntangled(g: Graph)
    requires ClosedGraph(g)
    ensures Elems(Leftover(g)) == Entangled(g) && Ascending(Leftover(g))
    ensures Entangled(g) == g.Keys - Elems(LeastFirst(g, {}))
    ensures Leftover(g) == [] <==> Acyclic(g)
  {
    LeastFirstCorrect(g);
    EntangledIsRest(g, LeastFirst(g, {}));
    SortedSetSorts(g.Keys - Elems(LeastFirst(g, {})));
    EmptyElems(Leftover(g));
    EntangledIffCyclic(g, LeastFirst(g, {}));
  }

  lemma EntangledIffCyclic(g: Graph, q: seq<string>)
    requires ClosedGraph(g) && Maximal(g, q)
    ensures g.Keys - Elems(q) == {} <==> Acyclic(g)
  {
    CompleteIffAcyclic(g, q);
    NothingLeft(g.Keys, Elems(q));
  }

  lemma NothingLeft<T>(all: set<T>, some: set<T>)
    requires some <= all
    ensures all - some == {} <==> some == all
  {
    if all - some == {} {
      forall x | x in all ensures x in some { assert x !in all - some; }
    }
  }

  /** Outside soft mode the circular error is raised exactly when there is a cycle other than a self-loop, and names,
      in order, exactly the packs on or downstream of one. */
  lemma CircularErrorExactly(g: Graph)
    requires ClosedGraph(g)
    ensures Outcome(g, false).Failed? <==> !Acyclic(g)
    ensures Outcome(g, false).Failed? ==>
      var e := Outcome(g, false).error;
      e.CircularDependency? && Elems(e.packs) == Entangled(g) && Ascending(e.packs)
  {
    LeftoverEntangled(g);
  }

  /** q is p followed by r: p respects every dependency and cannot be extended, r is the rest in order. */
  ghost predicate SoftSplit(g: Graph, q: seq<string>, p: seq<string>, r: seq<string>) {
    q == p + r && Maximal(g, p) && Ascending(r) && Elems(r) == Entangled(g)
  }

  /** Soft mode always loads every pack once: first an order that respects every dependency and cannot be extended,
      then the packs on or downstream of a cycle, alphabetically. */
  lemma SoftLoadOrder(g: Graph)
    requires ClosedGraph(g)
    ensures Outcome(g, true).Loaded?
    ensures Distinct(Outcome(g, true).order) && Elems(Outcome(g, true).order) == g.Keys
    ensures exists p, r :: SoftSplit(g, Outcome(g, true).order, p, r)
  {
    var p, r := LeastFirst(g, {}), Leftover(g);
    LeastFirstCorrect(g);
    LeftoverEntangled(g);
    assert p + [] == p;
    assert SoftSplit(g, Outcome(g, true).order, p, r);
    AscendingDistinct(r);
    DistinctConcat(p, r);
  }

  lemma AscendingDistinct(q: seq<string>)
    requires Ascending(q)
    ensures Distinct(q)
  {
    forall i, j | 0 <= i < j < |q| ensures q[i] != q[j] { StrLessIrreflexive(q[i]); }
  }

  lemma DistinctConcat(a: seq<string>, b: seq<string>)
    requires Distinct(a) && Distinct(b) && Elems(a) !! Elems(b)
    ensures Distinct(a + b) && Elems(a + b) == Elems(a) + Elems(b)
  {
    forall i, j | 0 <= i < j < |a + b| ensures (a + b)[i] != (a + b)[j] {
      assert i < |a| ==> a[i] in Elems(a);
      assert j >= |a| ==> b[j - |a|] in Elems(b);
    }
  }

  /** The iteration order of the packs dict has no influence on the outcome. */
  lemma OutcomeIgnoresDictOrder(packs: seq<Pack>, packs': seq<Pack>, soft: bool)
    requires IsDict(packs) && IsDict(packs') && multiset(packs) == multiset(packs')
    ensures Outcome(DependencyGraph(packs), soft) == Outcome(DependencyGraph(packs'), soft)
  {
    forall p ensures p in packs <==> p in packs' {
      assert p in packs <==> p in multiset(packs);
      assert p in packs' <==> p in multiset(packs');
    }
    GraphIgnoresDictOrder(packs, packs');
  }

  // ------------------------------------------------------- validate_dependencies

  ghost predicate DependsOnItself(packs: seq<Pack>, n: nat, id: string) {
    exists i :: 0 <= i < n && i < |packs| && packs[i].id == id && id in DepSet(packs, packs[i])
  }

  ghost predicate Lacking(packs: seq<Pack>, n: nat, id: string, d: string) {
    exists i :: 0 <= i < n && i < |packs| && packs[i].id == id && d in MissingDeps(packs, packs[i])
  }

  /** The issues found in the first n packs, each reported once. */
  ghost predicate Reports(packs: seq<Pack>, n: nat, issues: seq<Issue>) {
    && Distinct(issues)
    && (forall id :: SelfDependency(id) in issues <==> DependsOnItself(packs, n, id))
    && (forall id, d :: Missing(id, d) in issues <==> Lacking(packs, n, id, d))
    && (forall c :: Circular(c) !in issues)
  }

  /** issues plus the ones about pack id that `self` and `missing` call for. */
  ghost predicate Extended(issues: seq<Issue>, issues': seq<Issue>, id: string, self: bool, missing: set<string>) {
    && Distinct(issues')
    && (forall x :: x in issues' <==>
        x in issues || (self && x == SelfDependency(id)) || (x.Missing? && x.pack == id && x.dependsOn in missing))
  }

  method AddIssues(issues: seq<Issue>, id: string, self: bool, missing: set<string>) returns (issues': seq<Issue>)
    requires Distinct(issues) && SelfDependency(id) !in issues && forall d :: Missing(id, d) !in issues
    ensures Extended(issues, issues', id, self, missing)
  {
    issues' := if self then issues + [SelfDependency(id)] else issues;
    var todo := missing;
    while todo != {}
      invariant todo <= missing && Extended(issues, issues', id, self, missing - todo)
      decreases todo
    {
      var d :| d in todo;
      todo := todo - {d};
      assert Missing(id, d) !in issues';
      issues' := issues' + [Missing(id, d)];
    }
    assert missing - {} == missing;
  }

  lemma ReportsMore(packs: seq<Pack>, n: nat, issues: seq<Issue>, issues': seq<Issue>)
    requires IsDict(packs) && n < |packs| && Reports(packs, n, issues)
    requires Extended(issues, issues', packs[n].id, packs[n].id in DepSet(packs, packs[n]),
                      MissingDeps(packs, packs[n]))
    ensures Reports(packs, n + 1, issues')
  {
    var p := packs[n];
    forall id ensures SelfDependency(id) in issues' <==> DependsOnItself(packs, n + 1, id) {
      assert DependsOnItself(packs, n + 1, id) <==>
          DependsOnItself(packs, n, id) || (id == p.id && id in DepSet(packs, p));
    }
    forall id, d ensures Missing(id, d) in issues' <==> Lacking(packs, n + 1, id, d) {
      assert Lacking(packs, n + 1, id, d) <==> Lacking(packs, n, id, d) || (id == p.id && d in MissingDeps(packs, p));
    }
  }

  lemma NotYetReported(packs: seq<Pack>, n: nat, issues: seq<Issue>)
    requires IsDict(packs) && n < |packs| && Reports(packs, n, issues)
    ensures SelfDependency(packs[n].id) !in issues && forall d :: Missing(packs[n].id, d) !in issues
  {
  }

  method ReportPack(packs: seq<Pack>, n: nat, issues: seq<Issue>, deps: set<string>, missing: set<string>)
      returns (issues': seq<Issue>)
    requires IsDict(packs) && n < |packs| && Reports(packs, n, issues)
    requires deps == DepSet(packs, packs[n]) && missing == MissingDeps(packs, packs[n])
    ensures Reports(packs, n + 1, issues')
  {
    NotYetReported(packs, n, issues);
    issues' := AddIssues(issues, packs[n].id, packs[n].id in deps, missing);
    ReportsMore(packs, n, issues, issues');
  }

  /** The validator's own copy of the graph construction, recording issues instead of raising. */
  method Inspect(packs: seq<Pack>)
    returns (issues: seq<Issue>, ghost g: Graph, waiting: map<string, seq<string>>, inDegree: map<string, int>)
    requires IsDict(packs)
    ensures Reports(packs, |packs|, issues)
    ensures g == DependencyGraph(packs) && Holds(g, waiting, inDegree)
  {
    var index := BuildTypeToPacks(packs);
    ghost var target, added: set<string> := DependencyGraph(packs), {};
    issues := [];
    g, waiting, inDegree := NoEdges(Ids(packs), target);
    assert packs[..0] == [];
    for i := 0 to |packs|
      invariant Holds(g, waiting, inDegree) && Filled(target, added, g) && added == Ids(packs[..i])
      invariant Reports(packs, i, issues)
    {
      IdsGrow(packs, i);
      GraphEdges(packs, i);
      var deps, missing;
      g, waiting, inDegree, deps, missing := AddPackEdges(packs, i, index, target, g, added, waiting, inDegree);
      added := added + {packs[i].id};
      issues := ReportPack(packs, i, issues, deps, missing);
    }
    TakeAll(packs);
    AllFilled(target, g);
  }

  /** All issues of a set of packs: those found while building the graph, then the circular one, if any. */
  ghost predicate Diagnoses(packs: seq<Pack>, issues: seq<Issue>)
    requires IsDict(packs)
  {
    exists found :: Reports(packs, |packs|, found) && issues == WithCycle(found, Leftover(DependencyGraph(packs)))
  }

  method ValidateDependencies(packs: seq<Pack>) returns (issues: seq<Issue>)
    requires IsDict(packs)
    ensures Diagnoses(packs, issues)
  {
    ghost var g;
    var waiting, inDegree;
    issues, g, waiting, inDegree := Inspect(packs);
    ghost var found := issues;
    var remaining := Cyclic(g, waiting, inDegree);
    if remaining != [] {
      issues := issues + [Circular(remaining)];
    }
    assert Reports(packs, |packs|, found) && issues == WithCycle(found, Leftover(DependencyGraph(packs)));
  }

  /** The validator's second half: what Kahn's algorithm could not visit. */
  method Cyclic(ghost g: Graph, waiting: map<string, seq<string>>, inDegree: map<string, int>)
      returns (remaining: seq<string>)
    requires Holds(g, waiting, inDegree)
    ensures remaining == Leftover(g)
  {
    var visited := Emit(g, waiting, inDegree);
    remaining := [];
    LeastFirstCorrect(g);
    CompleteByCount(g, visited);
    if |visited| != |inDegree.Keys| {
      remaining := SortedList(inDegree.Keys - Elems(visited));
    }
  }

  function WithCycle(found: seq<Issue>, cyclic: seq<string>): seq<Issue> {
    if cyclic == [] then found else found + [Circular(cyclic)]
  }

  lemma CycleIssue(packs: seq<Pack>, found: seq<Issue>, g: Graph)
    requires ClosedGraph(g) && Reports(packs, |packs|, found)
    ensures forall c :: Circular(c) in WithCycle(found, Leftover(g)) <==>
            Outcome(g, false) == Failed(CircularDependency(c))
  {
  }

  lemma MissingIssue(packs: seq<Pack>, found: seq<Issue>, cyclic: seq<string>)
    requires Reports(packs, |packs|, found)
    ensures (exists id, d :: Missing(id, d) in WithCycle(found, cyclic)) <==> !NoneMissing(packs, |packs|)
  {
    if !NoneMissing(packs, |packs|) {
      var k :| 0 <= k < |packs| && MissingDeps(packs, packs[k]) != {};
      var d :| d in MissingDeps(packs, packs[k]);
      assert Lacking(packs, |packs|, packs[k].id, d);
      assert Missing(packs[k].id, d) in found;
    }
    if id, d :| Missing(id, d) in WithCycle(found, cyclic) {
      assert Lacking(packs, |packs|, id, d);
    }
  }

  /** The validator reports a cycle exactly when loading raises the circular error, with the same packs, and a missing
      dependency exactly when strict loading raises for one. */
  lemma ValidatorAgrees(packs: seq<Pack>, issues: seq<Issue>)
    requires IsDict(packs) && Diagnoses(packs, issues)
    ensures forall c :: Circular(c) in issues <==>
            Outcome(DependencyGraph(packs), false) == Failed(CircularDependency(c))
    ensures (exists id, d :: Missing(id, d) in issues) <==> !NoneMissing(packs, |packs|)
  {
    var g := DependencyGraph(packs);
    var found :| Reports(packs, |packs|, found) && issues == WithCycle(found, Leftover(g));
    CycleIssue(packs, found, g);
    MissingIssue(packs, found, Leftover(g));
  }

  // ------------------------------------------------------------ from the manifests on

  /** The manifest of p calls for q: by its name, or because a component of p requires a type that one of q provides. */
  ghost predicate CallsFor(p: Pack, q: Pack) {
    || (q.id != "" && NamesDependency(p.manifest, q.id))
    || exists c, d, t :: c in p.manifest.components && d in q.manifest.components && t in c.needs && t in d.offers
        && t != ""
  }

  lemma CallsForIsEdge(packs: seq<Pack>, p: Pack, q: Pack)
    requires IsDict(packs) && p in packs && q in packs && p.id != q.id
    ensures var g := DependencyGraph(packs); p.id in g && q.id in g && (q.id in g[p.id] <==> CallsFor(p, q))
  {
    var i :| 0 <= i < |packs| && packs[i] == p;
    GraphEdges(packs, i);
    var j :| 0 <= j < |packs| && packs[j] == q;
    GraphEdges(packs, j);
    DeclaredExactly(p.manifest, q.id);
    LinkedExactly(packs, p, q, j);
  }

  lemma LinkedExactly(packs: seq<Pack>, p: Pack, q: Pack, j: nat)
    requires IsDict(packs) && j < |packs| && packs[j] == q && p.id != q.id
    ensures LinkedTo(packs, p, q.id) <==>
      exists c, d, t :: c in p.manifest.components && d in q.manifest.components && t in c.needs && t in d.offers
          && t != ""
  {
    if LinkedTo(packs, p, q.id) {
      var i :| 0 <= i < |packs| && packs[i].id == q.id && Linked(p, packs[i]);
      assert i == j;
      var t :| Needs(p.manifest, t) && Provides(q.manifest, t);
      var c :| c in p.manifest.components && t in c.needs;
      var d :| d in q.manifest.components && t in d.offers;
    }
    if c, d, t :| c in p.manifest.components && d in q.manifest.components && t in c.needs && t in d.offers && t != "" {
      assert Needs(p.manifest, t) && Provides(q.manifest, t);
      assert Linked(p, packs[j]);
    }
  }

  /** If nothing is cyclic, whatever an installed pack calls for and is installed is loaded before it. */
  lemma DependenciesLoadFirst(packs: seq<Pack>, soft: bool, p: Pack, q: Pack) returns (i: nat, j: nat)
    requires IsDict(packs) && p in packs && q in packs && p.id != q.id && CallsFor(p, q)
    requires Acyclic(DependencyGraph(packs))
    ensures var r := Outcome(DependencyGraph(packs), soft);
            r.Loaded? && i < j < |r.order| && r.order[i] == q.id && r.order[j] == p.id
  {
    var g := DependencyGraph(packs);
    AcyclicLoadOrder(g, soft);
    CallsForIsEdge(packs, p, q);
    var order := Outcome(g, soft).order;
    assert p.id in Elems(order);
    j :| 0 <= j < |order| && order[j] == p.id;
    assert q.id in order[..j];
    i :| 0 <= i < j && order[i] == q.id;
  }
}
