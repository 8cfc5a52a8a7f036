/** Sorted groups, and the closed form of an application in which injections do not interfere (flow_modifier.py). */
module ModifierDeterminism {
  import opened Orders
  import opened Flows
  import opened FlowModifier
  import opened ModifierLaws
  import opened ModifierOrder

  ghost predicate DistinctModifiers(ms: seq<Modifier>) {
    forall i, j :: 0 <= i < j < |ms| ==> ms[i].id != ms[j].id
  }

  ghost predicate SameMembers(a: seq<Modifier>, b: seq<Modifier>) {
    forall m :: m in a <==> m in b
  }

  lemma SoonerIsStrictWeakOrder()
    ensures StrictWeakOrder(Sooner)
  {
    StrLessTotalOrder();
    forall x, y, z | !Sooner(x, y) && !Sooner(y, z) ensures !Sooner(x, z) { }
  }

  /** Each group is in (priority, step id, modifier id) order. */
  lemma GroupsAreSorted(ms: seq<Modifier>, key: string)
    ensures SortedBy(Sooner, Group(ms, key)) && multiset(Group(ms, key)) == multiset(Sharing(ms, key))
  {
    SoonerIsStrictWeakOrder();
    SortSorts(Sooner, Sharing(ms, key));
  }

  lemma {:induction false} Infix<T>(a: seq<T>, b: seq<T>, c: seq<T>)
    ensures Subsequence(b, a + b + c)
  {
    if a == [] {
      assert a + b + c == b + c;
      Prefix(b, c);
    } else {
      assert (a + b + c)[1..] == a[1..] + b + c;
      Infix(a[1..], b, c);
    }
  }

  lemma {:induction false} Prefix<T>(b: seq<T>, c: seq<T>)
    ensures Subsequence(b, b + c)
  {
    if b != [] {
      assert (b + c)[1..] == b[1..] + c;
      Prefix(b[1..], c);
    }
  }

  /** Right after its injection a group stands, in order, on its side of the step found at the target. */
  lemma GroupBeside(p: Progress, side: Kind, key: string, ms: seq<Modifier>)
    requires Locate(p.steps, key) >= 0
    ensures var target := p.steps[Locate(p.steps, key)];
            Subsequence(if side == Before then Block(ms, key) + [target] else [target] + Block(ms, key),
                        InjectGroup(p, side, key, Group(ms, key)).steps)
  {
    var s, i, block := p.steps, Locate(p.steps, key), Block(ms, key);
    if side == Before {
      assert s[..i] + block + s[i..] == s[..i] + (block + [s[i]]) + s[i + 1..];
      Infix(s[..i], block + [s[i]], s[i + 1..]);
    } else {
      assert s[..i + 1] + block + s[i + 1..] == s[..i] + ([s[i]] + block) + s[i + 1..];
      Infix(s[..i], [s[i]] + block, s[i + 1..]);
    }
  }

  /** In every result each injected group stands, in (priority, step id, modifier id) order, on its side of the step
      that was found at its target. */
  lemma GroupsStandSorted(env: Available, flow: Flow, ms: seq<Modifier>, side: Kind, i: nat)
    requires side == Before || side == After
    requires i < |KeysOf(Only(Accept(env, flow.phases, ms), side))|
    requires var g := Only(Accept(env, flow.phases, ms), side);
             Locate(InjectAll(Start(env, flow, ms, side), side, KeysOf(g)[..i], g).steps, KeysOf(g)[i]) >= 0
    ensures var g := Only(Accept(env, flow.phases, ms), side);
            var key, s := KeysOf(g)[i], InjectAll(Start(env, flow, ms, side), side, KeysOf(g)[..i], g).steps;
            var target := s[Locate(s, key)];
            && SortedBy(Sooner, Group(g, key)) && multiset(Group(g, key)) == multiset(Sharing(g, key))
            && Subsequence(if side == Before then StepsFrom(Group(g, key)) + [target]
                else [target] + StepsFrom(Group(g, key)),
                           Apply(env, flow, ms).steps)
  {
    var g := Only(Accept(env, flow.phases, ms), side);
    var keys, p := KeysOf(g), Start(env, flow, ms, side);
    var q, key := InjectAll(p, side, keys[..i], g), keys[i];
    var target := q.steps[Locate(q.steps, key)];
    GroupsAreSorted(g, key);
    GroupBeside(q, side, key, g);
    InjectNext(p, side, keys, i, g);
    StageKept(env, flow, ms, side, i + 1);
    SubsequenceTransitive(if side == Before then Block(g, key) + [target] else [target] + Block(g, key),
                          InjectAll(p, side, keys[..i + 1], g).steps, Apply(env, flow, ms).steps);
  }

  lemma {:induction false} SharingDistinct(ms: seq<Modifier>, key: string)
    requires DistinctModifiers(ms)
    ensures DistinctModifiers(Sharing(ms, key))
    decreases |ms|
  {
    if ms != [] {
      var n := |ms| - 1;
      SharingDistinct(ms[..n], key);
      SharingIn(ms[..n], key);
      NotRepeated(ms, Sharing(ms[..n], key));
    }
  }

  lemma {:induction false} OnlyDistinct(ms: seq<Modifier>, k: Kind)
    requires DistinctModifiers(ms)
    ensures DistinctModifiers(Only(ms, k))
    decreases |ms|
  {
    if ms != [] {
      var n := |ms| - 1;
      OnlyDistinct(ms[..n], k);
      OnlyIn(ms[..n], k);
      NotRepeated(ms, Only(ms[..n], k));
    }
  }

  /** The last id does not occur among earlier members. */
  lemma NotRepeated(ms: seq<Modifier>, q: seq<Modifier>)
    requires ms != [] && DistinctModifiers(ms) && forall m :: m in q ==> exists x :: x in ms[..|ms| - 1] && x.id == m.id
    ensures forall i :: 0 <= i < |q| ==> q[i].id != ms[|ms| - 1].id
  {
  }

  lemma {:induction false} AcceptIn(env: Available, phases: seq<string>, ms: seq<Modifier>)
    ensures forall x :: x in Accept(env, phases, ms) <==> exists m :: m in ms && Screen(env, phases, m) == Accepted(x)
    decreases |ms|
  {
    if ms != [] {
      var n := |ms| - 1;
      AcceptIn(env, phases, ms[..n]);
      assert forall m :: m in ms <==> m in ms[..n] || m == ms[n] by { assert ms == ms[..n] + [ms[n]]; }
    }
  }

  lemma {:induction false} AcceptDistinct(env: Available, phases: seq<string>, ms: seq<Modifier>)
    requires DistinctModifiers(ms)
    ensures DistinctModifiers(Accept(env, phases, ms))
    decreases |ms|
  {
    if ms != [] {
      var n := |ms| - 1;
      AcceptDistinct(env, phases, ms[..n]);
      AcceptIn(env, phases, ms[..n]);
      NotRepeated(ms, Accept(env, phases, ms[..n]));
    }
  }

  lemma MembersToMultiset(a: seq<Modifier>, b: seq<Modifier>)
    requires DistinctModifiers(a) && DistinctModifiers(b) && SameMembers(a, b)
    ensures multiset(a) == multiset(b)
  {
    DistinctSameElems(a, b);
  }

  lemma SameGroup(a: seq<Modifier>, b: seq<Modifier>, key: string)
    requires DistinctModifiers(a) && DistinctModifiers(b) && SameMembers(a, b)
    ensures Group(a, key) == Group(b, key)
  {
    var x, y := Sharing(a, key), Sharing(b, key);
    SharingIn(a, key);
    SharingIn(b, key);
    SharingDistinct(a, key);
    SharingDistinct(b, key);
    MembersToMultiset(x, y);
    SoonerIsStrictWeakOrder();
    forall m, n | m in x && n in x && m != n ensures Sooner(m, n) || Sooner(n, m) {
      StrLessConnected(StepKey(m), StepKey(n));
      StrLessConnected(m.id, n.id);
    }
    SortOfPermutation(Sooner, x, y);
  }

  lemma SameKeys(a: seq<Modifier>, b: seq<Modifier>)
    requires SameMembers(a, b)
    ensures Elems(KeysOf(a)) == Elems(KeysOf(b))
  {
    KeysDistinct(a);
    KeysDistinct(b);
    forall k ensures k in KeysOf(a) <==> k in KeysOf(b) {
      if i :| 0 <= i < |a| && KeyOf(a[i]) == k { assert a[i] in b; }
      if i :| 0 <= i < |b| && KeyOf(b[i]) == k { assert b[i] in a; }
    }
  }

  lemma {:induction false} SameBlocks(s: seq<Step>, phases: seq<string>, keys: seq<string>, e: seq<Modifier>,
                                      e': seq<Modifier>)
    requires DistinctModifiers(e) && DistinctModifiers(e') && SameMembers(e, e')
    ensures AppendBlocks(s, phases, keys, e) == AppendBlocks(s, phases, keys, e')
    decreases |keys|
  {
    if keys != [] {
      SameGroup(e, e', keys[|keys| - 1]);
      SameBlocks(s, phases, keys[..|keys| - 1], e, e');
    }
  }

  lemma OnlySame(x: seq<Modifier>, y: seq<Modifier>, k: Kind)
    requires DistinctModifiers(x) && DistinctModifiers(y) && SameMembers(x, y)
    ensures SameMembers(Only(x, k), Only(y, k)) && DistinctModifiers(Only(x, k)) && DistinctModifiers(Only(y, k))
  {
    OnlyIn(x, k);
    OnlyIn(y, k);
    OnlyDistinct(x, k);
    OnlyDistinct(y, k);
  }

  lemma AcceptSame(env: Available, phases: seq<string>, ms: seq<Modifier>, ms': seq<Modifier>)
    requires DistinctModifiers(ms) && DistinctModifiers(ms') && SameMembers(ms, ms')
    ensures var x, y := Accept(env, phases, ms), Accept(env, phases, ms');
            SameMembers(x, y) && DistinctModifiers(x) && DistinctModifiers(y)
  {
    AcceptIn(env, phases, ms);
    AcceptIn(env, phases, ms');
    AcceptDistinct(env, phases, ms);
    AcceptDistinct(env, phases, ms');
  }

  lemma {:induction false} AcceptedPhases(env: Available, phases: seq<string>, ms: seq<Modifier>)
    ensures forall m :: m in Accept(env, phases, ms) ==> m.phase in phases
    decreases |ms|
  {
    if ms != [] { AcceptedPhases(env, phases, ms[..|ms| - 1]); }
  }

  lemma KeysArePhases(phases: seq<string>, e: seq<Modifier>)
    requires AllAppends(phases, e)
    ensures forall k :: k in KeysOf(e) ==> k in phases
  {
    KeysDistinct(e);
    forall k | k in KeysOf(e) ensures k in phases {
      var i :| 0 <= i < |e| && KeyOf(e[i]) == k;
      assert e[i] in e;
    }
  }

  lemma AppendsOf(env: Available, phases: seq<string>, ms: seq<Modifier>)
    ensures var e := Only(Accept(env, phases, ms), AtEnd);
            AllAppends(phases, e) && forall k :: k in KeysOf(e) ==> k in phases
  {
    var active := Accept(env, phases, ms);
    AcceptedPhases(env, phases, ms);
    OnlyIn(active, AtEnd);
    KeysArePhases(phases, Only(active, AtEnd));
  }

  /** The injections of a modifier list do not interfere with each other. */
  ghost predicate NoInterference(env: Available, phases: seq<string>, ms: seq<Modifier>) {
    var b, a := Only(Accept(env, phases, ms), Before), Only(Accept(env, phases, ms), After);
    Independent(b, a, Elems(KeysOf(b)) + Elems(KeysOf(a)))
  }

  /** The closed form of a whole application without interference: the replacements and removals in list order, then
      one expansion around the targets, then the appends phase by phase. */
  lemma ApplyClosedForm(env: Available, flow: Flow, ms: seq<Modifier>)
    requires NoInterference(env, flow.phases, ms)
    ensures var active := Accept(env, flow.phases, ms);
            var b, a, e := Only(active, Before), Only(active, After), Only(active, AtEnd);
            var rewritten := ApplySingles(Progress(flow.steps, []), Only(active, Single)).steps;
            Apply(env, flow, ms).steps ==
            AppendBlocks(Expand(rewritten, b, Elems(KeysOf(b)), a, Elems(KeysOf(a))), flow.phases, KeysOf(e), e)
  {
    var active := Accept(env, flow.phases, ms);
    var b, a, e := Only(active, Before), Only(active, After), Only(active, AtEnd);
    var p1 := ApplySingles(Progress(flow.steps, Refusals(env, flow.phases, ms)), Only(active, Single));
    SinglesIgnoreResults(flow.steps, Refusals(env, flow.phases, ms), [], Only(active, Single));
    InjectionsExpand(p1, b, a);
    AppendsOf(env, flow.phases, ms);
    AppendAllIsBlocks(InjectAll(InjectAll(p1, Before, KeysOf(b), b), After, KeysOf(a), a), flow.phases, KeysOf(e), e);
  }

  lemma {:induction false} SinglesIgnoreResults(steps: seq<Step>, rs: seq<ApplyResult>, rs': seq<ApplyResult>,
                                                ms: seq<Modifier>)
    ensures ApplySingles(Progress(steps, rs), ms).steps == ApplySingles(Progress(steps, rs'), ms).steps
    decreases |ms|
  {
    if ms != [] { SinglesIgnoreResults(steps, rs, rs', ms[..|ms| - 1]); }
  }

  lemma SamePieces(env: Available, phases: seq<string>, ms: seq<Modifier>, ms': seq<Modifier>, k: Kind)
    requires DistinctModifiers(ms) && DistinctModifiers(ms') && SameMembers(ms, ms')
    ensures var x, y := Only(Accept(env, phases, ms), k), Only(Accept(env, phases, ms'), k);
            SameMembers(x, y) && DistinctModifiers(x) && DistinctModifiers(y) && Elems(KeysOf(x)) == Elems(KeysOf(y))
  {
    AcceptSame(env, phases, ms, ms');
    OnlySame(Accept(env, phases, ms), Accept(env, phases, ms'), k);
    SameKeys(Only(Accept(env, phases, ms), k), Only(Accept(env, phases, ms'), k));
  }

  lemma SameAppends(s: seq<Step>, phases: seq<string>, e: seq<Modifier>, e': seq<Modifier>)
    requires DistinctModifiers(e) && DistinctModifiers(e') && SameMembers(e, e') && AllAppends(phases, e)
    requires forall k :: k in KeysOf(e) ==> k in phases
    requires Elems(KeysOf(e)) == Elems(KeysOf(e'))
    ensures AppendBlocks(s, phases, KeysOf(e), e) == AppendBlocks(s, phases, KeysOf(e'), e')
  {
    KeysDistinct(e);
    KeysDistinct(e');
    forall k ensures k in KeysOf(e) <==> k in KeysOf(e') { assert k in Elems(KeysOf(e)) <==> k in Elems(KeysOf(e')); }
    AppendOrderIrrelevant(s, phases, e, KeysOf(e), KeysOf(e'));
    SameBlocks(s, phases, KeysOf(e'), e, e');
  }
}
