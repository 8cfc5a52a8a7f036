/** Pack load order (dependency_resolver.py). */
module DependencyResolver {
  import opened Orders
  import opened Precedence

  // ------------------------------------------------------------------ manifests

  /** One element of a dependency list: a string, a dict with a `pack_id` (already turned into text, "" when absent or
      falsy), or anything else. */
  datatype Item = Text(text: string) | Record(packId: string) | OtherItem

  /** A manifest field: neither list nor dict, a list, or a dict of which only the keys matter. */
  datatype Shape = Absent | ListOf(items: seq<Item>) | DictOf(keys: seq<string>)

  /** The string entries of a component's `connectivity.provides` and `connectivity.requires`. */
  datatype Component = Component(offers: seq<string>, needs: seq<string>)

  datatype Manifest = Manifest(dependsOn: Shape, dependencies: Shape, packRequires: Shape, components: seq<Component>)

  /** One item of the `packs` dict; a sequence of them stands for the dict in iteration order. */
  datatype Pack = Pack(id: string, manifest: Manifest)

  datatype LoadError = MissingDependency(pack: string, dependsOn: string) | CircularDependency(packs: seq<string>)

  datatype LoadResult = Loaded(order: seq<string>) | Failed(error: LoadError)

  datatype Issue = SelfDependency(pack: string) | Missing(pack: string, dependsOn: string)
                 | Circular(packs: seq<string>)

  // ----------------------------------------------------- declared dependencies

  /** The names an element contributes; only `depends_on` looks inside dicts. */
  function NamesOf(item: Item, records: bool): seq<string> {
    match item
    case Text(s) => [s]
    case Record(p) => if records then [p] else []
    case OtherItem => []
  }

  function Names(items: seq<Item>, records: bool): seq<string> {
    if items == [] then []
    else Names(items[..|items| - 1], records) + NamesOf(items[|items| - 1], records)
  }

  function Source(s: Shape, records: bool, keys: bool): seq<string> {
    match s
    case Absent => []
    case ListOf(items) => Names(items, records)
    case DictOf(ks) => if keys then ks else []
  }

  /** Every mention of another pack at pack level, in the order the three sources are read. */
  function Declared(m: Manifest): seq<string> {
    Source(m.dependsOn, true, true) + Source(m.dependencies, false, true) + Source(m.packRequires, false, false)
  }

  /** The manifest names d as a dependency: in `depends_on`, as a text, as the `pack_id` of a dict, or as a key; in
      `dependencies`, as a text or as a key; in the list of required packs, as a text. */
  ghost predicate NamesDependency(m: Manifest, d: string) {
    || (m.dependsOn.ListOf? && (Text(d) in m.dependsOn.items || Record(d) in m.dependsOn.items))
    || (m.dependsOn.DictOf? && d in m.dependsOn.keys)
    || (m.dependencies.ListOf? && Text(d) in m.dependencies.items)
    || (m.dependencies.DictOf? && d in m.dependencies.keys)
    || (m.packRequires.ListOf? && Text(d) in m.packRequires.items)
  }

  lemma {:induction false} NamesExactly(items: seq<Item>, records: bool, d: string)
    ensures d in Names(items, records) <==> Text(d) in items || (records && Record(d) in items)
    decreases |items|
  {
    if items != [] {
      var n := |items| - 1;
      NamesExactly(items[..n], records, d);
      assert items == items[..n] + [items[n]];
    }
  }

  lemma SourceExactly(s: Shape, records: bool, keys: bool, d: string)
    ensures d in Source(s, records, keys) <==>
            || (s.ListOf? && (Text(d) in s.items || (records && Record(d) in s.items)))
            || (keys && s.DictOf? && d in s.keys)
  {
    if s.ListOf? { NamesExactly(s.items, records, d); }
  }

  /** Those names and no others are mentioned. */
  lemma DeclaredExactly(m: Manifest, d: string)
    ensures d in Declared(m) <==> NamesDependency(m, d)
  {
    SourceExactly(m.dependsOn, true, true, d);
    SourceExactly(m.dependencies, false, true, d);
    SourceExactly(m.packRequires, false, false, d);
  }

  /** q lists the non-empty names of mentions, each once, in order of first mention. */
  ghost predicate FirstMentions(mentions: seq<string>, q: seq<string>) {
    && Distinct(q)
    && (forall d :: d in q <==> d != "" && d in mentions)
    && (forall i, j :: 0 <= i < j < |q| ==> MentionedBefore(mentions, q[i], q[j]))
  }

  ghost predicate MentionedBefore(mentions: seq<string>, a: string, b: string) {
    exists k :: 0 <= k < |mentions| && mentions[k] == a && b !in mentions[..k]
  }

  method Add(ghost mentions: seq<string>, q: seq<string>, seen: set<string>, pid: string)
    returns (q': seq<string>, seen': set<string>)
    requires FirstMentions(mentions, q) && seen == Elems(q)
    ensures FirstMentions(mentions + [pid], q') && seen' == Elems(q')
  {
    q', seen' := q, seen;
    ghost var more := mentions + [pid];
    forall a, b | MentionedBefore(mentions, a, b) ensures MentionedBefore(more, a, b) {
      var k :| 0 <= k < |mentions| && mentions[k] == a && b !in mentions[..k];
      assert more[k] == a && more[..k] == mentions[..k];
    }
    if pid != "" && pid !in seen {
      q', seen' := q + [pid], seen + {pid};
      forall i | 0 <= i < |q| ensures MentionedBefore(more, q[i], pid) {
        assert q[i] in q && pid !in mentions;
        var k :| 0 <= k < |mentions| && mentions[k] == q[i];
        assert more[k] == q[i] && more[..k] == mentions[..k];
      }
    }
  }

  method AddItem(ghost mentions: seq<string>, q: seq<string>, seen: set<string>, item: Item, records: bool)
    returns (q': seq<string>, seen': set<string>)
    requires FirstMentions(mentions, q) && seen == Elems(q)
    ensures FirstMentions(mentions + NamesOf(item, records), q') && seen' == Elems(q')
  {
    q', seen' := q, seen;
    assert mentions + [] == mentions;
    match item {
      case Text(pid) => q', seen' := Add(mentions, q, seen, pid);
      case Record(pid) => if records { q', seen' := Add(mentions, q, seen, pid); }
      case OtherItem =>
    }
  }

  lemma NamesNext(mentions: seq<string>, items: seq<Item>, i: nat, records: bool)
    requires i < |items|
    ensures mentions + Names(items[..i + 1], records)
            == mentions + Names(items[..i], records) + NamesOf(items[i], records)
  {
    assert items[..i + 1][..i] == items[..i];
  }

  method AddItems(ghost mentions: seq<string>, q: seq<string>, seen: set<string>, items: seq<Item>, records: bool)
    returns (q': seq<string>, seen': set<string>)
    requires FirstMentions(mentions, q) && seen == Elems(q)
    ensures FirstMentions(mentions + Names(items, records), q') && seen' == Elems(q')
  {
    q', seen' := q, seen;
    assert mentions + [] == mentions;
    for i := 0 to |items|
      invariant FirstMentions(mentions + Names(items[..i], records), q') && seen' == Elems(q')
    {
      NamesNext(mentions, items, i, records);
      q', seen' := AddItem(mentions + Names(items[..i], records), q', seen', items[i], records);
    }
    TakeAll(items);
  }

  method AddShape(ghost mentions: seq<string>, q: seq<string>, seen: set<string>, s: Shape, records: bool, keys: bool)
    returns (q': seq<string>, seen': set<string>)
    requires FirstMentions(mentions, q) && seen == Elems(q)
    ensures FirstMentions(mentions + Source(s, records, keys), q') && seen' == Elems(q')
  {
    q', seen' := q, seen;
    assert mentions + [] == mentions;
    match s {
      case Absent =>
      case ListOf(items) => q', seen' := AddItems(mentions, q, seen, items, records);
      case DictOf(ks) =>
        if keys {
          for i := 0 to |ks|
            invariant FirstMentions(mentions + ks[..i], q') && seen' == Elems(q')
          {
            assert mentions + ks[..i + 1] == mentions + ks[..i] + [ks[i]];
            q', seen' := Add(mentions + ks[..i], q', seen', ks[i]);
          }
          TakeAll(ks);
        }
    }
  }

  method ExtractDependencies(m: Manifest) returns (result: seq<string>)
    ensures FirstMentions(Declared(m), result)
    ensures forall d :: d in result <==> d != "" && NamesDependency(m, d)
  {
    forall d ensures d in Declared(m) <==> NamesDependency(m, d) { DeclaredExactly(m, d); }
    var seen: set<string> := {};
    result := [];
    result, seen := AddShape([], result, seen, m.dependsOn, true, true);
    assert [] + Source(m.dependsOn, true, true) == Source(m.dependsOn, true, true);
    result, seen := AddShape(Source(m.dependsOn, true, true), result, seen, m.dependencies, false, true);
    result, seen := AddShape(Source(m.dependsOn, true, true) + Source(m.dependencies, false, true), result, seen,
                             m.packRequires, false, false);
  }

  // ------------------------------------------------ component-level dependencies

  ghost predicate Provides(m: Manifest, t: string) {
    t != "" && exists c :: c in m.components && t in c.offers
  }

  ghost predicate Needs(m: Manifest, t: string) {
    exists c :: c in m.components && t in c.needs
  }

  predicate Has(index: map<string, set<string>>, t: string, p: string) { t in index && p in index[t] }

  /** The provider index answers exactly the `Provides` question for the packs read so far. */
  ghost predicate Indexes(index: map<string, set<string>>, packs: seq<Pack>) {
    forall t, p :: Has(index, t, p) <==> ProvidedBy(packs, t, p)
  }

  ghost predicate ProvidedBy(packs: seq<Pack>, t: string, p: string) {
    exists i :: 0 <= i < |packs| && packs[i].id == p && Provides(packs[i].manifest, t)
  }

  method AddProvider(index: map<string, set<string>>, t: string, p: string) returns (index': map<string, set<string>>)
    ensures forall u, q :: Has(index', u, q) <==> Has(index, u, q) || (u == t && u != "" && q == p)
  {
    index' := index;
    if t != "" {
      if t !in index' { index' := index'[t := {}]; }
      index' := index'[t := index'[t] + {p}];
    }
  }

  method AddOffers(index: map<string, set<string>>, offers: seq<string>, p: string)
      returns (index': map<string, set<string>>)
    ensures forall u, q :: Has(index', u, q) <==> Has(index, u, q) || (u in offers && u != "" && q == p)
  {
    index' := index;
    for k := 0 to |offers|
      invariant forall u, q :: Has(index', u, q) <==> Has(index, u, q) || (u in offers[..k] && u != "" && q == p)
    {
      index' := AddProvider(index', offers[k], p);
      assert offers[..k + 1] == offers[..k] + [offers[k]];
    }
    assert offers[..|offers|] == offers;
  }

  ghost predicate Offered(comps: seq<Component>, t: string) { exists c :: c in comps && t in c.offers }

  method AddPack(index: map<string, set<string>>, p: Pack) returns (index': map<string, set<string>>)
    ensures forall u, q :: Has(index', u, q) <==> Has(index, u, q) || (q == p.id && Provides(p.manifest, u))
  {
    index' := index;
    var comps := p.manifest.components;
    for j := 0 to |comps|
      invariant forall u, q :: Has(index', u, q) <==>
                Has(index, u, q) || (Offered(comps[..j], u) && u != "" && q == p.id)
    {
      index' := AddOffers(index', comps[j].offers, p.id);
      assert comps[..j + 1] == comps[..j] + [comps[j]];
      assert forall u :: Offered(comps[..j + 1], u) <==> Offered(comps[..j], u) || u in comps[j].offers by {
        assert forall c :: c in comps[..j + 1] <==> c in comps[..j] || c == comps[j];
      }
    }
    assert comps[..|comps|] == comps;
  }

  method BuildTypeToPacks(packs: seq<Pack>) returns (index: map<string, set<string>>)
    ensures Indexes(index, packs)
  {
    index := map[];
    for i := 0 to |packs|
      invariant Indexes(index, packs[..i])
    {
      index := AddPack(index, packs[i]);
      forall t, p ensures ProvidedBy(packs[..i + 1], t, p) <==>
                          ProvidedBy(packs[..i], t, p) || (p == packs[i].id && Provides(packs[i].manifest, t)) {
        var a, b := packs[..i], packs[..i + 1];
        assert forall k :: 0 <= k < i ==> a[k] == b[k];
        assert b[i] == packs[i];
      }
    }
    assert packs[..|packs|] == packs;
  }

  /** p's components need something that the other pack q provides. */
  ghost predicate Linked(p: Pack, q: Pack) {
    q.id != p.id && exists t :: Needs(p.manifest, t) && Provides(q.manifest, t)
  }

  ghost predicate LinkedTo(packs: seq<Pack>, p: Pack, d: string) {
    exists i :: 0 <= i < |packs| && packs[i].id == d && Linked(p, packs[i])
  }

  ghost predicate FoundIn(ts: seq<string>, index: map<string, set<string>>, d: string) {
    exists t :: t in ts && Has(index, t, d)
  }

  method ProvidersOf(ts: seq<string>, index: map<string, set<string>>) returns (found: set<string>)
    ensures forall d :: d in found <==> FoundIn(ts, index, d)
  {
    found := {};
    for j := 0 to |ts|
      invariant forall d :: d in found <==> FoundIn(ts[..j], index, d)
    {
      found := found + if ts[j] in index then index[ts[j]] else {};
      assert forall t :: t in ts[..j + 1] <==> t in ts[..j] || t == ts[j];
      assert forall d :: FoundIn(ts[..j + 1], index, d) <==> FoundIn(ts[..j], index, d) || Has(index, ts[j], d);
    }
    assert ts[..|ts|] == ts;
  }

  ghost predicate NeededFrom(comps: seq<Component>, index: map<string, set<string>>, d: string) {
    exists c :: c in comps && FoundIn(c.needs, index, d)
  }

  lemma LinkedByIndex(p: Pack, index: map<string, set<string>>, packs: seq<Pack>, d: string)
    requires Indexes(index, packs)
    ensures LinkedTo(packs, p, d) <==> d != p.id && NeededFrom(p.manifest.components, index, d)
  {
  }

  method CollectComponentRequires(p: Pack, index: map<string, set<string>>, ghost packs: seq<Pack>)
      returns (deps: set<string>)
    requires Indexes(index, packs)
    ensures forall d :: d in deps <==> LinkedTo(packs, p, d)
  {
    deps := {};
    var comps := p.manifest.components;
    for i := 0 to |comps|
      invariant forall d :: d in deps <==> d != p.id && NeededFrom(comps[..i], index, d)
    {
      var found := ProvidersOf(comps[i].needs, index);
      deps := deps + (found - {p.id});
      assert forall c :: c in comps[..i + 1] <==> c in comps[..i] || c == comps[i];
      assert forall d :: NeededFrom(comps[..i + 1], index, d) <==>
          NeededFrom(comps[..i], index, d) || FoundIn(comps[i].needs, index, d);
    }
    assert comps[..|comps|] == comps;
    forall d ensures d in deps <==> LinkedTo(packs, p, d) { LinkedByIndex(p, index, packs, d); }
  }

  // ------------------------------------------------------- the dependency graph

  function Ids(packs: seq<Pack>): set<string> { set p | p in packs :: p.id }

  ghost predicate IsDict(packs: seq<Pack>) {
    forall i, j :: 0 <= i < j < |packs| ==> packs[i].id != packs[j].id
  }

  /** All dependencies of p, from its own declarations and through component types. */
  ghost function DepSet(packs: seq<Pack>, p: Pack): set<string> {
    (set d | d in Declared(p.manifest) && d != "") + (set d | d in Ids(packs) && LinkedTo(packs, p, d))
  }

  ghost function MissingDeps(packs: seq<Pack>, p: Pack): set<string> {
    DepSet(packs, p) - Ids(packs)
  }

  /** Dependencies that constrain the order: installed, and not the pack itself. */
  ghost function Edges(packs: seq<Pack>, p: Pack): set<string> {
    DepSet(packs, p) * Ids(packs) - {p.id}
  }

  ghost function PackNamed(packs: seq<Pack>, id: string): (p: Pack)
    requires id in Ids(packs)
    ensures p in packs && p.id == id
  {
    var p :| p in packs && p.id == id;
    p
  }

  ghost function DependencyGraph(packs: seq<Pack>): (g: Graph)
    ensures g.Keys == Ids(packs) && ClosedGraph(g)
  {
    map id | id in Ids(packs) :: Edges(packs, PackNamed(packs, id))
  }

  lemma GraphEdges(packs: seq<Pack>, i: nat)
    requires IsDict(packs) && i < |packs|
    ensures packs[i].id in DependencyGraph(packs) && DependencyGraph(packs)[packs[i].id] == Edges(packs, packs[i])
  {
  }

  lemma LinkedIgnoresDictOrder(packs: seq<Pack>, packs': seq<Pack>, p: Pack, d: string)
    requires Elems(packs) == Elems(packs')
    ensures LinkedTo(packs, p, d) ==> LinkedTo(packs', p, d)
  {
    if LinkedTo(packs, p, d) {
      var i :| 0 <= i < |packs| && packs[i].id == d && Linked(p, packs[i]);
      assert packs[i] in Elems(packs) && packs[i] in packs';
      var j :| 0 <= j < |packs'| && packs'[j] == packs[i];
    }
  }

  lemma IdsAreElems(packs: seq<Pack>)
    ensures Ids(packs) == set p | p in Elems(packs) :: p.id
  {
  }

  lemma EdgesIgnoreDictOrder(packs: seq<Pack>, packs': seq<Pack>, p: Pack)
    requires Elems(packs) == Elems(packs')
    ensures Ids(packs) == Ids(packs') && DepSet(packs, p) == DepSet(packs', p)
  {
    IdsAreElems(packs);
    IdsAreElems(packs');
    forall d ensures LinkedTo(packs, p, d) <==> LinkedTo(packs', p, d) {
      LinkedIgnoresDictOrder(packs, packs', p, d);
      LinkedIgnoresDictOrder(packs', packs, p, d);
    }
  }

  lemma GraphOfPack(packs: seq<Pack>, p: Pack)
    requires IsDict(packs) && p in Elems(packs)
    ensures p.id in DependencyGraph(packs) && DependencyGraph(packs)[p.id] == Edges(packs, p)
  {
  }

  lemma EntryIgnoresDictOrder(packs: seq<Pack>, packs': seq<Pack>, id: string)
    requires IsDict(packs) && IsDict(packs') && Elems(packs) == Elems(packs') && id in Ids(packs)
    ensures id in DependencyGraph(packs') && DependencyGraph(packs)[id] == DependencyGraph(packs')[id]
  {
    var p := PackNamed(packs, id);
    assert p in Elems(packs);
    GraphOfPack(packs, p);
    GraphOfPack(packs', p);
    EdgesIgnoreDictOrder(packs, packs', p);
  }

  /** Reordering the dict does not change the graph. */
  lemma GraphIgnoresDictOrder(packs: seq<Pack>, packs': seq<Pack>)
    requires IsDict(packs) && IsDict(packs') && Elems(packs) == Elems(packs')
    ensures DependencyGraph(packs) == DependencyGraph(packs')
  {
    IdsAreElems(packs);
    IdsAreElems(packs');
    forall id | id in Ids(packs)
      ensures id in DependencyGraph(packs') && DependencyGraph(packs)[id] == DependencyGraph(packs')[id]
    {
      EntryIgnoresDictOrder(packs, packs', id);
    }
  }

  /** The two dicts that the loops fill hold the edges of g: who waits for whom, and for how many. */
  ghost predicate Holds(g: Graph, waiting: map<string, seq<string>>, inDegree: map<string, int>) {
    && waiting.Keys == g.Keys == inDegree.Keys
    && (forall d :: d in g ==> WaitsFor(g, waiting[d], d))
    && (forall p :: p in g ==> inDegree[p] == |g[p]|)
  }

  ghost predicate WaitsFor(g: Graph, q: seq<string>, d: string) {
    Distinct(q) && forall p :: p in q <==> p in g && d in g[p]
  }

  lemma HoldsAfterEdge(g: Graph, waiting: map<string, seq<string>>, inDegree: map<string, int>, pid: string, d: string)
    requires Holds(g, waiting, inDegree) && pid in g && d in g && d !in g[pid]
    ensures Holds(g[pid := g[pid] + {d}], waiting[d := waiting[d] + [pid]], inDegree[pid := inDegree[pid] + 1])
  {
  }

  /** While adding pid's edges: those for the dependencies no longer in todo are in, the others not yet. */
  ghost predicate EdgesSoFar(g: Graph, h: Graph, pid: string, deps: set<string>, todo: set<string>,
                             missing: set<string>) {
    && h.Keys == g.Keys && pid in g && todo <= deps
    && (forall q :: q in g && q != pid ==> h[q] == g[q])
    && (forall d :: d in h[pid] <==> d in deps && d !in todo && d in g)
    && (forall d :: d in missing <==> d in deps && d !in todo && d !in g)
  }

  method AddEdge(ghost g: Graph, ghost h: Graph, waiting: map<string, seq<string>>, inDegree: map<string, int>,
                 pid: string, deps: set<string>, todo: set<string>, missing: set<string>)
    returns (ghost h': Graph, waiting': map<string, seq<string>>, inDegree': map<string, int>, todo': set<string>,
             missing': set<string>)
    requires EdgesSoFar(g, h, pid, deps, todo, missing) && Holds(h, waiting, inDegree) && todo != {}
    ensures EdgesSoFar(g, h', pid, deps, todo', missing') && Holds(h', waiting', inDegree') && todo' < todo
  {
    h', waiting', inDegree', missing' := h, waiting, inDegree, missing;
    var d :| d in todo;
    todo' := todo - {d};
    if d !in waiting {
      missing' := missing + {d};
    } else {
      HoldsAfterEdge(h, waiting, inDegree, pid, d);
      h' := h[pid := h[pid] + {d}];
      waiting' := waiting[d := waiting[d] + [pid]];
      inDegree' := inDegree[pid := inDegree[pid] + 1];
    }
  }

  method AddEdges(ghost g: Graph, waiting: map<string, seq<string>>, inDegree: map<string, int>, pid: string,
                  deps: set<string>)
    returns (waiting': map<string, seq<string>>, inDegree': map<string, int>, missing: set<string>)
    requires Holds(g, waiting, inDegree) && pid in g && g[pid] == {}
    ensures Holds(g[pid := deps * g.Keys], waiting', inDegree') && missing == deps - g.Keys
  {
    waiting', inDegree', missing := waiting, inDegree, {};
    var todo := deps;
    ghost var h := g;
    while todo != {}
      invariant EdgesSoFar(g, h, pid, deps, todo, missing) && Holds(h, waiting', inDegree')
      decreases todo
    {
      h, waiting', inDegree', todo, missing := AddEdge(g, h, waiting', inDegree', pid, deps, todo, missing);
    }
    AllEdges(g, h, pid, deps, missing);
  }

  lemma AllEdges(g: Graph, h: Graph, pid: string, deps: set<string>, missing: set<string>)
    requires EdgesSoFar(g, h, pid, deps, {}, missing)
    ensures h == g[pid := deps * g.Keys] && missing == deps - g.Keys
  {
    assert h[pid] == deps * g.Keys;
  }

  /** How many prerequisites each pack still waits for. */
  ghost predicate Counts(g: Graph, done: set<string>, inDegree: map<string, int>) {
    inDegree.Keys == g.Keys && forall p :: p in g ==> inDegree[p] == |g[p] - done|
  }

  lemma OneLess(s: set<string>, done: set<string>, pid: string)
    requires pid !in done
    ensures pid in s ==> |s - (done + {pid})| == |s - done| - 1
    ensures pid !in s ==> s - (done + {pid}) == s - done
    ensures |s - (done + {pid})| == 0 <==> s <= done + {pid}
  {
    if pid in s {
      assert s - done == (s - (done + {pid})) + {pid};
    }
    assert |s - (done + {pid})| == 0 ==> s - (done + {pid}) == {};
  }

  /** Whatever is done has all its prerequisites done. */
  ghost predicate Finished(g: Graph, done: set<string>) { forall p :: p in done && p in g ==> g[p] <= done }

  lemma FinishedNext(g: Graph, done: set<string>, pid: string)
    requires Finished(g, done) && pid in Ready(g, done)
    ensures Finished(g, done + {pid})
  {
  }

  lemma NewlyReady(g: Graph, done: set<string>, pid: string, dependents: seq<string>, heap: set<string>,
                   heap': set<string>)
    requires pid in Ready(g, done) && heap == Ready(g, done) - {pid} && WaitsFor(g, dependents, pid)
    requires Finished(g, done)
    requires forall p :: p in heap' <==> p in heap || (p in dependents && g[p] <= done + {pid})
    ensures heap' == Ready(g, done + {pid})
  {
  }

  /** One round of Kahn's inner loop: pid's dependents each wait for one pack less. */
  method Release(ghost g: Graph, ghost done: set<string>, pid: string, dependents: seq<string>,
                 inDegree: map<string, int>, heap: set<string>)
    returns (inDegree': map<string, int>, heap': set<string>)
    requires pid !in done && WaitsFor(g, dependents, pid) && Counts(g, done, inDegree)
    ensures Counts(g, done + {pid}, inDegree')
    ensures forall p :: p in heap' <==> p in heap || (p in dependents && g[p] <= done + {pid})
  {
    inDegree', heap' := inDegree, heap;
    for i := 0 to |dependents|
      invariant inDegree'.Keys == g.Keys
      invariant forall p :: p in g ==>
                inDegree'[p] == if p in dependents[..i] then |g[p] - (done + {pid})| else |g[p] - done|
      invariant forall p :: p in heap' <==> p in heap || (p in dependents[..i] && g[p] <= done + {pid})
    {
      var p := dependents[i];
      TakeNext(dependents, i);
      assert p in dependents && p !in dependents[..i];
      OneLess(g[p], done, pid);
      inDegree' := inDegree'[p := inDegree'[p] - 1];
      if inDegree'[p] == 0 {
        heap' := heap' + {p};
      }
    }
    TakeAll(dependents);
    forall p | p in g ensures inDegree'[p] == |g[p] - (done + {pid})| {
      OneLess(g[p], done, pid);
    }
  }

  /** What Kahn's loop keeps: the heap holds the ready packs, the counters what the others wait for. */
  ghost predicate KahnState(g: Graph, done: set<string>, degree: map<string, int>, heap: set<string>) {
    heap == Ready(g, done) && Counts(g, done, degree) && Finished(g, done)
  }

  lemma KahnStart(g: Graph, degree: map<string, int>, heap: set<string>)
    requires degree.Keys == g.Keys && forall p :: p in g ==> degree[p] == |g[p]|
    requires heap == set p | p in degree && degree[p] == 0
    ensures KahnState(g, {}, degree, heap)
  {
  }

  /** Kahn's algorithm with a heap, as both public functions run it. */
  method Emit(ghost g: Graph, waiting: map<string, seq<string>>, inDegree: map<string, int>)
      returns (result: seq<string>)
    requires Holds(g, waiting, inDegree)
    ensures result == LeastFirst(g, {})
  {
    var degree := inDegree;
    var heap := set p | p in degree && degree[p] == 0;
    result := [];
    KahnStart(g, degree, heap);
    ghost var done: set<string> := {};
    while heap != {}
      invariant KahnState(g, done, degree, heap) && result + LeastFirst(g, done) == LeastFirst(g, {})
      decreases g.Keys - done
    {
      var pid;
      pid, degree, heap := EmitOne(g, done, waiting, degree, heap);
      Reassociate(result, [pid], LeastFirst(g, done + {pid}));
      result, done := result + [pid], done + {pid};
    }
  }

  /** `heappop`: the next pack of the emission. */
  method PopNext(ghost g: Graph, ghost done: set<string>, heap: set<string>) returns (pid: string, rest: set<string>)
    requires heap == Ready(g, done) && heap != {}
    ensures pid in heap && rest == heap - {pid} && LeastFirst(g, done) == [pid] + LeastFirst(g, done + {pid})
  {
    pid, rest := PopLeast(heap);
    LeastUnique(pid, heap);
  }

  /** The loop over the dependents of the pack that was popped. */
  method ReleaseDependents(ghost g: Graph, ghost done: set<string>, pid: string, dependents: seq<string>,
                           degree: map<string, int>, rest: set<string>)
    returns (degree': map<string, int>, heap': set<string>)
    requires pid in Ready(g, done) && rest == Ready(g, done) - {pid} && WaitsFor(g, dependents, pid)
    requires Counts(g, done, degree) && Finished(g, done)
    ensures Counts(g, done + {pid}, degree') && heap' == Ready(g, done + {pid})
  {
    degree', heap' := Release(g, done, pid, dependents, degree, rest);
    NewlyReady(g, done, pid, dependents, rest, heap');
  }

  method EmitOne(ghost g: Graph, ghost done: set<string>, waiting: map<string, seq<string>>, degree: map<string, int>,
                 heap: set<string>)
    returns (pid: string, degree': map<string, int>, heap': set<string>)
    requires KahnState(g, done, degree, heap) && heap != {} && waiting.Keys == g.Keys
    requires forall d :: d in g ==> WaitsFor(g, waiting[d], d)
    ensures pid in g.Keys - done && LeastFirst(g, done) == [pid] + LeastFirst(g, done + {pid})
    ensures KahnState(g, done + {pid}, degree', heap')
  {
    var rest;
    pid, rest := PopNext(g, done, heap);
    FinishedNext(g, done, pid);
    degree', heap' := ReleaseDependents(g, done, pid, waiting[pid], degree, rest);
  }

  // ------------------------------------------------------------- load order

  ghost function Leftover(g: Graph): seq<string> {
    SortedSet(g.Keys - Elems(LeastFirst(g, {})))
  }

  /** The outcome on the dependency graph, once missing dependencies are dealt with. */
  ghost function Outcome(g: Graph, soft: bool): LoadResult {
    if Leftover(g) == [] then Loaded(LeastFirst(g, {}))
    else if soft then Loaded(LeastFirst(g, {}) + Leftover(g))
    else Failed(CircularDependency(Leftover(g)))
  }

  /** The error names a missing dependency of the first pack that has one. */
  ghost predicate FirstMissing(packs: seq<Pack>, pack: string, dep: string) {
    exists i :: 0 <= i < |packs| && packs[i].id == pack && dep in MissingDeps(packs, packs[i]) && NoneMissing(packs, i)
  }

  method DepsOf(packs: seq<Pack>, p: Pack, index: map<string, set<string>>) returns (deps: set<string>)
    requires Indexes(index, packs)
    ensures deps == DepSet(packs, p)
  {
    var declared := ExtractDependencies(p.manifest);
    var byType := CollectComponentRequires(p, index, packs);
    deps := (set d | d in declared) + byType;
    assert forall d :: LinkedTo(packs, p, d) ==> d in Ids(packs);
  }

  /** The edges of the packs in `added` are in. */
  ghost predicate Filled(target: Graph, added: set<string>, g: Graph) {
    g.Keys == target.Keys && forall q :: q in g ==> g[q] == if q in added then target[q] else {}
  }

  ghost predicate NoneMissing(packs: seq<Pack>, n: nat) {
    forall k :: 0 <= k < n && k < |packs| ==> MissingDeps(packs, packs[k]) == {}
  }

  /** The loop body over `packs.items()`. */
  method AddPackEdges(packs: seq<Pack>, i: nat, index: map<string, set<string>>, ghost target: Graph,
                      ghost g: Graph, ghost added: set<string>, waiting: map<string, seq<string>>,
                      inDegree: map<string, int>)
    returns (ghost g': Graph, waiting': map<string, seq<string>>, inDegree': map<string, int>, deps: set<string>,
             missing: set<string>)
    requires i < |packs| && Indexes(index, packs) && packs[i].id !in added
    requires target.Keys == Ids(packs) && packs[i].id in target && target[packs[i].id] == Edges(packs, packs[i])
    requires Holds(g, waiting, inDegree) && Filled(target, added, g)
    ensures Holds(g', waiting', inDegree') && Filled(target, added + {packs[i].id}, g')
    ensures deps == DepSet(packs, packs[i]) && missing == MissingDeps(packs, packs[i])
  {
    var p := packs[i];
    deps := DepsOf(packs, p, index);
    waiting', inDegree', missing := AddEdges(g, waiting, inDegree, p.id, deps - {p.id});
    EdgesOfDeps(packs, p);
    FilledNext(target, added, g, p.id);
    g' := g[p.id := target[p.id]];
  }

  lemma FilledNext(target: Graph, added: set<string>, g: Graph, id: string)
    requires Filled(target, added, g) && id in target
    ensures Filled(target, added + {id}, g[id := target[id]])
  {
  }

  lemma EdgesOfDeps(packs: seq<Pack>, p: Pack)
    requires p.id in Ids(packs)
    ensures (DepSet(packs, p) - {p.id}) * Ids(packs) == Edges(packs, p)
    ensures DepSet(packs, p) - {p.id} - Ids(packs) == MissingDeps(packs, p)
  {
  }

  datatype BuildFailure = NoFailure | Lacks(pack: string, dependsOn: string)

  method BuildGraph(packs: seq<Pack>, strict: bool)
    returns (failure: BuildFailure, ghost g: Graph, waiting: map<string, seq<string>>, inDegree: map<string, int>)
    requires IsDict(packs)
    ensures failure.Lacks? <==> strict && !NoneMissing(packs, |packs|)
    ensures failure.Lacks? ==> FirstMissing(packs, failure.pack, failure.dependsOn)
    ensures failure.NoFailure? ==> g == DependencyGraph(packs) && Holds(g, waiting, inDegree)
  {
    var index := BuildTypeToPacks(packs);
    ghost var target, added: set<string> := DependencyGraph(packs), {};
    failure := NoFailure;
    g, waiting, inDegree := NoEdges(Ids(packs), target);
    assert packs[..0] == [];
    for i := 0 to |packs|
      invariant Holds(g, waiting, inDegree) && Filled(target, added, g) && added == Ids(packs[..i])
      invariant strict ==> NoneMissing(packs, i)
    {
      IdsGrow(packs, i);
      GraphEdges(packs, i);
      var deps, missing;
      g, waiting, inDegree, deps, missing := AddPackEdges(packs, i, index, target, g, added, waiting, inDegree);
      added := added + {packs[i].id};
      if strict && missing != {} {
        var d :| d in missing;
        assert FirstMissing(packs, packs[i].id, d) && !NoneMissing(packs, |packs|);
        return Lacks(packs[i].id, d), g, waiting, inDegree;
      }
    }
    TakeAll(packs);
    AllFilled(target, g);
  }

  method NoEdges(ids: set<string>, ghost target: Graph)
    returns (ghost g: Graph, waiting: map<string, seq<string>>, inDegree: map<string, int>)
    requires target.Keys == ids
    ensures Holds(g, waiting, inDegree) && Filled(target, {}, g)
  {
    waiting, inDegree, g := map id | id in ids :: [], map id | id in ids :: 0, map id | id in ids :: {};
  }

  lemma AllFilled(target: Graph, g: Graph)
    requires Filled(target, target.Keys, g)
    ensures g == target
  {
  }

  lemma IdsGrow(packs: seq<Pack>, i: nat)
    requires IsDict(packs) && i < |packs|
    ensures packs[i].id !in Ids(packs[..i]) && Ids(packs[..i + 1]) == Ids(packs[..i]) + {packs[i].id}
  {
  }

  method ResolveLoadOrder(packs: seq<Pack>, strict: bool, soft: bool) returns (r: LoadResult)
    requires IsDict(packs)
    ensures strict && !NoneMissing(packs, |packs|) ==>
      r.Failed? && r.error.MissingDependency? && FirstMissing(packs, r.error.pack, r.error.dependsOn)
    ensures !strict || NoneMissing(packs, |packs|) ==> r == Outcome(DependencyGraph(packs), soft)
  {
    if packs == [] {
      NoPacks();
      return Loaded([]);
    }
    ghost var g;
    var failure, waiting, inDegree;
    failure, g, waiting, inDegree := BuildGraph(packs, strict);
    if failure.Lacks? {
      return Failed(MissingDependency(failure.pack, failure.dependsOn));
    }
    r := Order(g, waiting, inDegree, soft);
  }

  lemma NoPacks()
    ensures Outcome(DependencyGraph([]), true) == Outcome(DependencyGraph([]), false) == Loaded([])
  {
  }

  method Order(ghost g: Graph, waiting: map<string, seq<string>>, inDegree: map<string, int>, soft: bool)
      returns (r: LoadResult)
    requires Holds(g, waiting, inDegree)
    ensures r == Outcome(g, soft)
  {
    var result := Emit(g, waiting, inDegree);
    LeastFirstCorrect(g);
    CompleteByCount(g, result);
    var remaining := SortedList(inDegree.Keys - Elems(result));
    SortedSetSorts(inDegree.Keys - Elems(result));
    if |result| != |inDegree.Keys| {
      r := if soft then Loaded(result + remaining) else Failed(CircularDependency(remaining));
    } else {
      r := Loaded(result);
    }
  }
}
