/** What the order of the modifier list has to do with the result (flow_modifier.py). */
module ModifierListOrder {
  import opened Orders
  import opened Flows
  import opened FlowModifier
  import opened ModifierLaws
  import opened ModifierOrder
  import opened ModifierDeterminism
  import opened ModifierSwaps

  // ---------------------------------------------------- the stages as folds

  ghost function Put(side: Kind, ms: seq<Modifier>): (seq<Step>, string) -> seq<Step> {
    (s: seq<Step>, k: string) => PutGroup(s, side, k, Block(ms, k))
  }

  lemma {:induction false} InjectsFold(p: Progress, side: Kind, keys: seq<string>, ms: seq<Modifier>)
    ensures InjectAll(p, side, keys, ms).steps == Fold(Put(side, ms), p.steps, keys)
    decreases |keys|
  {
    if keys != [] { InjectsFold(p, side, keys[..|keys| - 1], ms); }
  }

  lemma {:induction false} SinglesFold(p: Progress, ms: seq<Modifier>)
    ensures ApplySingles(p, ms).steps == Fold(One, p.steps, ms)
    decreases |ms|
  {
    if ms != [] { SinglesFold(p, ms[..|ms| - 1]); }
  }

  // ------------------------------------------------------- two listings of a list

  /** Singles that the two listings order differently fit. */
  ghost predicate SinglesCompatible(x: seq<Modifier>, y: seq<Modifier>) {
    forall m, n :: Reversed(x, y, m, n) ==> SinglesFit(m, n)
  }

  /** Groups that the two listings order differently fit. */
  ghost predicate GroupsCompatible(side: Kind, x: seq<Modifier>, y: seq<Modifier>) {
    forall j, k :: Reversed(KeysOf(x), KeysOf(y), j, k) ==> GroupsFit(side, j, Block(x, j), k, Block(x, k))
  }

  ghost predicate Compatible(env: Available, phases: seq<string>, ms: seq<Modifier>, ms': seq<Modifier>) {
    var x, y := Accept(env, phases, ms), Accept(env, phases, ms');
    && SinglesCompatible(Only(x, Single), Only(y, Single))
    && GroupsCompatible(Before, Only(x, Before), Only(y, Before))
    && GroupsCompatible(After, Only(x, After), Only(y, After))
  }

  lemma SinglesReorder(p: Progress, p': Progress, x: seq<Modifier>, y: seq<Modifier>)
    requires DistinctModifiers(x) && DistinctModifiers(y) && SameMembers(x, y) && SinglesCompatible(x, y)
    requires p.steps == p'.steps
    ensures ApplySingles(p, x).steps == ApplySingles(p', y).steps
  {
    SinglesFold(p, x);
    SinglesFold(p', y);
    assert Elems(x) == Elems(y);
    forall m, n | Reversed(x, y, m, n) ensures Swaps(One, m, n) {
      forall s ensures One(One(s, m), n) == One(One(s, n), m) { FittingSinglesSwap(s, m, n); }
    }
    FoldReorder(One, p.steps, x, y);
  }

  lemma {:induction false} SameInjections(p: Progress, p': Progress, side: Kind, keys: seq<string>, x: seq<Modifier>,
                                          y: seq<Modifier>)
    requires DistinctModifiers(x) && DistinctModifiers(y) && SameMembers(x, y) && p.steps == p'.steps
    ensures InjectAll(p, side, keys, x).steps == InjectAll(p', side, keys, y).steps
    decreases |keys|
  {
    if keys != [] {
      SameInjections(p, p', side, keys[..|keys| - 1], x, y);
      SameGroup(x, y, keys[|keys| - 1]);
    }
  }

  lemma NotBeforeItself<T>(q: seq<T>, x: T)
    requires Distinct(q)
    ensures !Precede(q, x, x)
  {
  }

  lemma InjectsReorder(p: Progress, p': Progress, side: Kind, x: seq<Modifier>, y: seq<Modifier>)
    requires DistinctModifiers(x) && DistinctModifiers(y) && SameMembers(x, y) && GroupsCompatible(side, x, y)
    requires p.steps == p'.steps
    ensures InjectAll(p, side, KeysOf(x), x).steps == InjectAll(p', side, KeysOf(y), y).steps
  {
    var kx, ky, f := KeysOf(x), KeysOf(y), Put(side, x);
    KeysDistinct(x);
    KeysDistinct(y);
    SameKeys(x, y);
    forall j, k | Reversed(kx, ky, j, k) ensures Swaps(f, j, k) {
      NotBeforeItself(kx, j);
      forall s ensures f(f(s, j), k) == f(f(s, k), j) {
        FittingGroupsSwap(s, side, j, Block(x, j), k, Block(x, k));
      }
    }
    InjectsFold(p, side, kx, x);
    InjectsFold(p, side, ky, x);
    FoldReorder(f, p.steps, kx, ky);
    SameInjections(p, p', side, ky, x, y);
  }

  lemma AppendsReorder(p: Progress, p': Progress, env: Available, phases: seq<string>, ms: seq<Modifier>,
                       ms': seq<Modifier>)
    requires DistinctModifiers(ms) && DistinctModifiers(ms') && SameMembers(ms, ms') && p.steps == p'.steps
    ensures var x, y := Only(Accept(env, phases, ms), AtEnd), Only(Accept(env, phases, ms'), AtEnd);
            AppendAll(p, phases, KeysOf(x), x).steps == AppendAll(p', phases, KeysOf(y), y).steps
  {
    var x, y := Only(Accept(env, phases, ms), AtEnd), Only(Accept(env, phases, ms'), AtEnd);
    SamePieces(env, phases, ms, ms', AtEnd);
    AppendsOf(env, phases, ms);
    AppendsOf(env, phases, ms');
    AppendAllIsBlocks(p, phases, KeysOf(x), x);
    AppendAllIsBlocks(p', phases, KeysOf(y), y);
    SameAppends(p.steps, phases, x, y);
  }

  /** The resulting steps do not depend on how the modifiers are listed, as long as any two replacements or removals,
      and any two groups on one side, that change places fit each other. */
  lemma ListOrderIrrelevant(env: Available, flow: Flow, ms: seq<Modifier>, ms': seq<Modifier>)
    requires DistinctModifiers(ms) && DistinctModifiers(ms') && SameMembers(ms, ms')
    requires Compatible(env, flow.phases, ms, ms')
    ensures Apply(env, flow, ms).steps == Apply(env, flow, ms').steps
  {
    var x, y := Accept(env, flow.phases, ms), Accept(env, flow.phases, ms');
    SamePieces(env, flow.phases, ms, ms', Single);
    SamePieces(env, flow.phases, ms, ms', Before);
    SamePieces(env, flow.phases, ms, ms', After);
    var p0, p0' := Progress(flow.steps, Refusals(env, flow.phases, ms)),
        Progress(flow.steps, Refusals(env, flow.phases, ms'));
    var p1, p1' := ApplySingles(p0, Only(x, Single)), ApplySingles(p0', Only(y, Single));
    SinglesReorder(p0, p0', Only(x, Single), Only(y, Single));
    var p2 := InjectAll(p1, Before, KeysOf(Only(x, Before)), Only(x, Before));
    var p2' := InjectAll(p1', Before, KeysOf(Only(y, Before)), Only(y, Before));
    InjectsReorder(p1, p1', Before, Only(x, Before), Only(y, Before));
    var p3 := InjectAll(p2, After, KeysOf(Only(x, After)), Only(x, After));
    var p3' := InjectAll(p2', After, KeysOf(Only(y, After)), Only(y, After));
    InjectsReorder(p2, p2', After, Only(x, After), Only(y, After));
    AppendsReorder(p3, p3', env, flow.phases, ms, ms');
  }

  lemma IndependentAvoids(x: seq<Modifier>, j: string, k: string, b: seq<Modifier>, a: seq<Modifier>, keys: set<string>)
    requires Independent(b, a, keys) && (x == b || x == a) && k in keys
    ensures Avoids(k, Block(x, j)) && Ordinary(k)
  {
    var block := Block(x, j);
    forall i | 0 <= i < |block| ensures block[i].id != k { assert block[i] in block; }
  }

  lemma IndependentFits(side: Kind, x: seq<Modifier>, y: seq<Modifier>, b: seq<Modifier>, a: seq<Modifier>,
                        keys: set<string>)
    requires Independent(b, a, keys) && Elems(KeysOf(x)) <= keys && (x == b || x == a)
    ensures GroupsCompatible(side, x, y)
  {
    forall j, k | Reversed(KeysOf(x), KeysOf(y), j, k) ensures GroupsFit(side, j, Block(x, j), k, Block(x, k)) {
      assert j in Elems(KeysOf(x)) && k in Elems(KeysOf(x));
      IndependentAvoids(x, j, k, b, a, keys);
      IndependentAvoids(x, k, j, b, a, keys);
    }
  }

  /** In particular if the replacements and removals keep their relative order and the injections target neither each
      other's steps nor a position. */
  lemma InjectionsInAnyOrder(env: Available, flow: Flow, ms: seq<Modifier>, ms': seq<Modifier>)
    requires DistinctModifiers(ms) && DistinctModifiers(ms') && SameMembers(ms, ms')
    requires Only(Accept(env, flow.phases, ms), Single) == Only(Accept(env, flow.phases, ms'), Single)
    requires NoInterference(env, flow.phases, ms)
    ensures Apply(env, flow, ms).steps == Apply(env, flow, ms').steps
  {
    var x, y := Accept(env, flow.phases, ms), Accept(env, flow.phases, ms');
    var b, a := Only(x, Before), Only(x, After);
    var keys := Elems(KeysOf(b)) + Elems(KeysOf(a));
    IndependentFits(Before, b, Only(y, Before), b, a, keys);
    IndependentFits(After, a, Only(y, After), b, a, keys);
    AcceptDistinct(env, flow.phases, ms);
    OnlyDistinct(x, Single);
    ListOrderIrrelevant(env, flow, ms, ms');
  }

  // ------------------------------------------------------------- two modifiers

  /** Whether two modifiers can be listed either way round. */
  ghost predicate ModifiersFit(m: Modifier, n: Modifier) {
    if KindOf(m) != KindOf(n) || KindOf(m) == AtEnd then true
    else if KindOf(m) == Single then SinglesFit(m, n)
    else KeyOf(m) == KeyOf(n) || GroupsFit(KindOf(m), KeyOf(m), [StepFrom(m)], KeyOf(n), [StepFrom(n)])
  }

  lemma PairAccepted(env: Available, phases: seq<string>, m: Modifier, n: Modifier)
    requires Screen(env, phases, m).Accepted? && Screen(env, phases, n).Accepted?
    ensures Accept(env, phases, [m, n]) == [Screen(env, phases, m).m, Screen(env, phases, n).m]
  {
    assert [m, n] == [m] + [n] && [m] == [] + [m];
    ScreenNext(env, phases, [], m);
    ScreenNext(env, phases, [m], n);
  }

  lemma PairKinds(m: Modifier, n: Modifier, k: Kind)
    ensures Only([m, n], k) == (if KindOf(m) == k then [m] else []) + (if KindOf(n) == k then [n] else [])
  {
    assert [m, n] == [m] + [n] && [m] == [] + [m];
    OnlyAppend([], m, k);
    OnlyAppend([m], n, k);
  }

  lemma KeysAppend(ms: seq<Modifier>, m: Modifier)
    ensures KeysOf(ms + [m]) == if KeyOf(m) in KeysOf(ms) then KeysOf(ms) else KeysOf(ms) + [KeyOf(m)]
  {
    assert (ms + [m])[..|ms|] == ms;
  }

  lemma PairKeys(m: Modifier, n: Modifier)
    ensures KeysOf([m, n]) == if KeyOf(m) == KeyOf(n) then [KeyOf(m)] else [KeyOf(m), KeyOf(n)]
    ensures KeysOf([m]) == [KeyOf(m)] && KeysOf([]) == []
  {
    assert [m, n] == [m] + [n] && [m] == [] + [m];
    KeysAppend([], m);
    KeysAppend([m], n);
  }

  lemma SharingAppend(ms: seq<Modifier>, m: Modifier, key: string)
    ensures Sharing(ms + [m], key) == if KeyOf(m) == key then Sharing(ms, key) + [m] else Sharing(ms, key)
  {
    assert (ms + [m])[..|ms|] == ms;
  }

  lemma SortSingle(m: Modifier)
    ensures Sort(Sooner, [m]) == [m]
  {
    assert [m][1..] == [];
    assert Sort(Sooner, [m]) == Insert(Sooner, m, []);
  }

  lemma PairSharing(m: Modifier, n: Modifier, key: string)
    ensures Sharing([m, n], key) == (if KeyOf(m) == key then [m] else []) + (if KeyOf(n) == key then [n] else [])
  {
    assert [m, n] == [m] + [n] && [m] == [] + [m];
    SharingAppend([], m, key);
    SharingAppend([m], n, key);
  }

  lemma PairBlocks(m: Modifier, n: Modifier)
    requires KeyOf(m) != KeyOf(n)
    ensures Block([m, n], KeyOf(m)) == [StepFrom(m)] && Block([m, n], KeyOf(n)) == [StepFrom(n)]
  {
    PairSharing(m, n, KeyOf(m));
    PairSharing(m, n, KeyOf(n));
    assert [m] + [] == [m] && [] + [n] == [n];
    SortSingle(m);
    SortSingle(n);
  }

  lemma TwoSteps<T>(f: (seq<Step>, T) -> seq<Step>, s: seq<Step>, j: T, k: T)
    ensures Fold(f, s, [j, k]) == f(f(s, j), k)
  {
    assert [j, k][..1] == [j] && [j][..0] == [];
    assert Fold(f, s, [j]) == f(Fold(f, s, []), j);
  }

  lemma TwoOfASide(p: Progress, m: Modifier, n: Modifier)
    requires KeyOf(m) != KeyOf(n)
    ensures forall side :: InjectAll(p, side, KeysOf([m, n]), [m, n]).steps
                           == Both(p.steps, side, KeyOf(m), [StepFrom(m)], KeyOf(n), [StepFrom(n)])
  {
    forall side ensures InjectAll(p, side, KeysOf([m, n]), [m, n]).steps
                        == Both(p.steps, side, KeyOf(m), [StepFrom(m)], KeyOf(n), [StepFrom(n)])
    {
      PairKeys(m, n);
      PairBlocks(m, n);
      InjectsFold(p, side, [KeyOf(m), KeyOf(n)], [m, n]);
      TwoSteps(Put(side, [m, n]), p.steps, KeyOf(m), KeyOf(n));
    }
  }

  /** Applying two injections on one side with different targets. */
  lemma TwoInjections(env: Available, flow: Flow, m: Modifier, n: Modifier)
    requires Screen(env, flow.phases, m).Accepted? && Screen(env, flow.phases, n).Accepted?
    requires KindOf(m) == KindOf(n) && (KindOf(m) == Before || KindOf(m) == After) && KeyOf(m) != KeyOf(n)
    ensures Apply(env, flow, [m, n]).steps
            == Both(flow.steps, KindOf(m), KeyOf(m), [StepFrom(m)], KeyOf(n), [StepFrom(n)])
  {
    var p := Progress(flow.steps, Refusals(env, flow.phases, [m, n]));
    PairAccepted(env, flow.phases, m, n);
    PairKinds(m, n, Single);
    PairKinds(m, n, Before);
    PairKinds(m, n, After);
    PairKinds(m, n, AtEnd);
    TwoOfASide(p, m, n);
  }

  /** Nothing but replacements and removals. */
  lemma OnlySingles(env: Available, flow: Flow, m: Modifier, n: Modifier)
    requires Screen(env, flow.phases, m).Accepted? && Screen(env, flow.phases, n).Accepted?
    requires KindOf(m) == KindOf(n) == Single
    ensures var p := Progress(flow.steps, Refusals(env, flow.phases, [m, n]));
            Apply(env, flow, [m, n]) == ApplySingles(p, [m, n])
  {
    PairAccepted(env, flow.phases, m, n);
    PairKinds(m, n, Single);
    PairKinds(m, n, Before);
    PairKinds(m, n, After);
    PairKinds(m, n, AtEnd);
    assert [m] + [n] == [m, n];
  }

  /** Applying two of them. */
  lemma TwoSingles(env: Available, flow: Flow, m: Modifier, n: Modifier)
    requires Screen(env, flow.phases, m).Accepted? && Screen(env, flow.phases, n).Accepted?
    requires KindOf(m) == KindOf(n) == Single
    ensures Apply(env, flow, [m, n]).steps == One(One(flow.steps, m), n)
  {
    OnlySingles(env, flow, m, n);
    SinglesFold(Progress(flow.steps, Refusals(env, flow.phases, [m, n])), [m, n]);
    TwoSteps(One, flow.steps, m, n);
  }

  lemma TooShort<T>(a: seq<T>, b: seq<T>)
    requires |a| <= 1
    ensures forall x, y :: !Reversed(a, b, x, y)
  {
  }

  lemma FewOf(m: Modifier, n: Modifier, k: Kind)
    requires KindOf(m) != KindOf(n) || KindOf(m) != k || (k != Single && KeyOf(m) == KeyOf(n))
    ensures |KeysOf(Only([m, n], k))| <= 1 && (k == Single ==> |Only([m, n], k)| <= 1)
  {
    PairKinds(m, n, k);
    assert [] + [n] == [n] && [m] + [] == [m] && [m] + [n] == [m, n];
    PairKeys(m, n);
    PairKeys(n, m);
  }

  lemma NeverReversed(m: Modifier, n: Modifier, k: Kind)
    requires KindOf(m) != KindOf(n) || KindOf(m) != k || (k != Single && KeyOf(m) == KeyOf(n))
    ensures if k == Single then SinglesCompatible(Only([m, n], k), Only([n, m], k))
            else GroupsCompatible(k, Only([m, n], k), Only([n, m], k))
  {
    FewOf(m, n, k);
    if k == Single {
      TooShort(Only([m, n], k), Only([n, m], k));
    } else {
      TooShort(KeysOf(Only([m, n], k)), KeysOf(Only([n, m], k)));
    }
  }

  /** Two modifiers that never meet. */
  lemma PairCompatible(env: Available, phases: seq<string>, m: Modifier, n: Modifier)
    requires Screen(env, phases, m).Accepted? && Screen(env, phases, n).Accepted?
    requires var a, b := Screen(env, phases, m).m, Screen(env, phases, n).m;
             KindOf(a) != KindOf(b) || KindOf(a) == AtEnd || (KindOf(a) != Single && KeyOf(a) == KeyOf(b))
    ensures Compatible(env, phases, [m, n], [n, m])
  {
    var a, b := Screen(env, phases, m).m, Screen(env, phases, n).m;
    PairAccepted(env, phases, m, n);
    PairAccepted(env, phases, n, m);
    NeverReversed(a, b, Single);
    NeverReversed(a, b, Before);
    NeverReversed(a, b, After);
  }

  lemma PairAnyOrder(env: Available, flow: Flow, m: Modifier, n: Modifier)
    requires Screen(env, flow.phases, m).Accepted? && Screen(env, flow.phases, n).Accepted? && m.id != n.id
    requires var a, b := Screen(env, flow.phases, m).m, Screen(env, flow.phases, n).m;
             KindOf(a) != KindOf(b) || KindOf(a) == AtEnd || (KindOf(a) != Single && KeyOf(a) == KeyOf(b))
    ensures Apply(env, flow, [m, n]).steps == Apply(env, flow, [n, m]).steps
  {
    PairCompatible(env, flow.phases, m, n);
    ListOrderIrrelevant(env, flow, [m, n], [n, m]);
  }

  /** The two listings of a pair give the same steps for this flow. */
  ghost predicate EitherWay(env: Available, flow: Flow, m: Modifier, n: Modifier, s: seq<Step>) {
    Apply(env, flow.(steps := s), [m, n]).steps == Apply(env, flow.(steps := s), [n, m]).steps
  }

  lemma SinglesEitherWay(env: Available, flow: Flow, m: Modifier, n: Modifier)
    requires Screen(env, flow.phases, m).Accepted? && Screen(env, flow.phases, n).Accepted?
    requires KindOf(m) == KindOf(n) == Single
    ensures (forall s :: EitherWay(env, flow, m, n, s)) <==> SinglesFit(m, n)
  {
    forall s ensures EitherWay(env, flow, m, n, s) <==> One(One(s, m), n) == One(One(s, n), m) {
      TwoSingles(env, flow.(steps := s), m, n);
      TwoSingles(env, flow.(steps := s), n, m);
    }
    SinglesSwapExactly(m, n);
  }

  lemma InjectionsEitherWay(env: Available, flow: Flow, m: Modifier, n: Modifier)
    requires Screen(env, flow.phases, m).Accepted? && Screen(env, flow.phases, n).Accepted?
    requires KindOf(m) == KindOf(n) && (KindOf(m) == Before || KindOf(m) == After) && KeyOf(m) != KeyOf(n)
    ensures (forall s :: EitherWay(env, flow, m, n, s)) <==>
            GroupsFit(KindOf(m), KeyOf(m), [StepFrom(m)], KeyOf(n), [StepFrom(n)])
  {
    var side, a, b := KindOf(m), [StepFrom(m)], [StepFrom(n)];
    forall s ensures EitherWay(env, flow, m, n, s) <==>
        Both(s, side, KeyOf(m), a, KeyOf(n), b) == Both(s, side, KeyOf(n), b, KeyOf(m), a) {
      TwoInjections(env, flow.(steps := s), m, n);
      TwoInjections(env, flow.(steps := s), n, m);
    }
    GroupsSwapExactly(side, KeyOf(m), a, KeyOf(n), b);
  }

  /** Two accepted modifiers can be listed either way round, whatever the steps of the flow, if and only if they fit. */
  lemma PairOrderExactly(env: Available, flow: Flow, m: Modifier, n: Modifier)
    requires Screen(env, flow.phases, m).Accepted? && Screen(env, flow.phases, n).Accepted? && m.id != n.id
    ensures (forall s :: EitherWay(env, flow, m, n, s)) <==>
            ModifiersFit(Screen(env, flow.phases, m).m, Screen(env, flow.phases, n).m)
  {
    if KindOf(m) == KindOf(n) == Single {
      SinglesEitherWay(env, flow, m, n);
    } else if KindOf(m) == KindOf(n) && KindOf(m) != AtEnd && KeyOf(m) != KeyOf(n) {
      InjectionsEitherWay(env, flow, m, n);
    } else {
      forall s ensures EitherWay(env, flow, m, n, s) { PairAnyOrder(env, flow.(steps := s), m, n); }
    }
  }

  // ------------------------------------------------------- lists of injections

  /** All that is accepted are injections on one side of named steps, and appends. */
  ghost predicate OneSided(env: Available, phases: seq<string>, ms: seq<Modifier>, side: Kind) {
    forall m :: m in Accept(env, phases, ms) ==> KindOf(m) == AtEnd || (KindOf(m) == side && Ordinary(KeyOf(m)))
  }

  /** No group injects another one's target. */
  ghost predicate TargetsApart(g: seq<Modifier>) {
    forall j, k :: j in KeysOf(g) && k in KeysOf(g) && j != k ==> Avoids(k, Block(g, j))
  }

  ghost predicate SameSteps(env: Available, flow: Flow, ms: seq<Modifier>, ms': seq<Modifier>, s: seq<Step>) {
    Apply(env, flow.(steps := s), ms).steps == Apply(env, flow.(steps := s), ms').steps
  }

  /** The modifiers can be listed in any way, whatever the steps of the flow. */
  ghost predicate AnyListing(env: Available, flow: Flow, ms: seq<Modifier>) {
    forall s, ms' :: DistinctModifiers(ms') && SameMembers(ms, ms') ==> SameSteps(env, flow, ms, ms', s)
  }

  lemma KeyOfMember(g: seq<Modifier>, k: string)
    ensures k in KeysOf(g) <==> exists m :: m in g && KeyOf(m) == k
  {
    KeysDistinct(g);
    if k in KeysOf(g) {
      var i :| 0 <= i < |g| && KeyOf(g[i]) == k;
      assert g[i] in g;
    }
    if m :| m in g && KeyOf(m) == k {
      var i :| 0 <= i < |g| && g[i] == m;
      assert KeyOf(g[i]) == k;
    }
  }

  lemma OrdinaryKeys(env: Available, phases: seq<string>, ms: seq<Modifier>, side: Kind)
    requires OneSided(env, phases, ms, side) && side != AtEnd
    ensures forall k :: k in KeysOf(Only(Accept(env, phases, ms), side)) ==> Ordinary(k)
  {
    var g := Only(Accept(env, phases, ms), side);
    OnlyIn(Accept(env, phases, ms), side);
    forall k | k in KeysOf(g) ensures Ordinary(k) {
      KeyOfMember(g, k);
      var m :| m in g && KeyOf(m) == k;
    }
  }

  /** There is nothing of another kind. */
  lemma NothingElse(env: Available, phases: seq<string>, ms: seq<Modifier>, side: Kind, kind: Kind)
    requires OneSided(env, phases, ms, side) && kind != side && kind != AtEnd
    ensures Only(Accept(env, phases, ms), kind) == []
  {
    var q := Only(Accept(env, phases, ms), kind);
    OnlyIn(Accept(env, phases, ms), kind);
    assert Elems(q) == {};
    EmptyElems(q);
  }

  lemma OneSidedSame(env: Available, phases: seq<string>, ms: seq<Modifier>, ms': seq<Modifier>, side: Kind)
    requires DistinctModifiers(ms) && DistinctModifiers(ms') && SameMembers(ms, ms') && OneSided(env, phases, ms, side)
    ensures OneSided(env, phases, ms', side)
  {
    AcceptSame(env, phases, ms, ms');
  }

  lemma ApartIsCompatible(side: Kind, x: seq<Modifier>, y: seq<Modifier>)
    requires TargetsApart(x) && forall k :: k in KeysOf(x) ==> Ordinary(k)
    ensures GroupsCompatible(side, x, y)
  {
    KeysDistinct(x);
    forall j, k | Reversed(KeysOf(x), KeysOf(y), j, k) ensures GroupsFit(side, j, Block(x, j), k, Block(x, k)) {
      NotBeforeItself(KeysOf(x), j);
      assert j in KeysOf(x) && k in KeysOf(x) && j != k;
    }
  }

  lemma ApartInAnyOrder(env: Available, flow: Flow, ms: seq<Modifier>, ms': seq<Modifier>, side: Kind)
    requires DistinctModifiers(ms) && DistinctModifiers(ms') && SameMembers(ms, ms')
    requires (side == Before || side == After) && OneSided(env, flow.phases, ms, side)
    requires TargetsApart(Only(Accept(env, flow.phases, ms), side))
    ensures Apply(env, flow, ms).steps == Apply(env, flow, ms').steps
  {
    var x, y := Accept(env, flow.phases, ms), Accept(env, flow.phases, ms');
    var other := if side == Before then After else Before;
    OrdinaryKeys(env, flow.phases, ms, side);
    ApartIsCompatible(side, Only(x, side), Only(y, side));
    NothingElse(env, flow.phases, ms, side, Single);
    NothingElse(env, flow.phases, ms, side, other);
    TooShort(Only(x, Single), Only(y, Single));
    TooShort(KeysOf(Only(x, other)), KeysOf(Only(y, other)));
    ListOrderIrrelevant(env, flow, ms, ms');
  }

  /** The list without x and y. */
  function Others(ms: seq<Modifier>, x: Modifier, y: Modifier): seq<Modifier> {
    if ms == [] then []
    else
      var before, m := Others(ms[..|ms| - 1], x, y), ms[|ms| - 1];
      if m == x || m == y then before else before + [m]
  }

  lemma {:induction false} OthersIn(ms: seq<Modifier>, x: Modifier, y: Modifier)
    ensures forall m :: m in Others(ms, x, y) <==> m in ms && m != x && m != y
    decreases |ms|
  {
    if ms != [] {
      var n := |ms| - 1;
      OthersIn(ms[..n], x, y);
      assert ms == ms[..n] + [ms[n]];
    }
  }

  lemma {:induction false} OthersDistinct(ms: seq<Modifier>, x: Modifier, y: Modifier)
    requires DistinctModifiers(ms)
    ensures DistinctModifiers(Others(ms, x, y))
    decreases |ms|
  {
    if ms != [] {
      var n := |ms| - 1;
      OthersDistinct(ms[..n], x, y);
      OthersIn(ms[..n], x, y);
      NotRepeated(ms, Others(ms[..n], x, y));
    }
  }

  /** The list with x and y in front. */
  function InFront(ms: seq<Modifier>, x: Modifier, y: Modifier): seq<Modifier> { [x, y] + Others(ms, x, y) }

  lemma DistinctMembers(ms: seq<Modifier>, x: Modifier, y: Modifier)
    requires DistinctModifiers(ms) && x in ms && y in ms && x != y
    ensures x.id != y.id
  {
  }

  lemma InFrontIsListing(ms: seq<Modifier>, x: Modifier, y: Modifier)
    requires DistinctModifiers(ms) && x in ms && y in ms && x != y
    ensures DistinctModifiers(InFront(ms, x, y)) && SameMembers(ms, InFront(ms, x, y))
  {
    var q := Others(ms, x, y);
    OthersIn(ms, x, y);
    OthersDistinct(ms, x, y);
    DistinctMembers(ms, x, y);
    forall i | 0 <= i < |q| ensures q[i].id != x.id && q[i].id != y.id {
      assert q[i] in q;
      DistinctMembers(ms, q[i], x);
      DistinctMembers(ms, q[i], y);
    }
  }

  lemma OthersSwap(ms: seq<Modifier>, x: Modifier, y: Modifier)
    ensures Others(ms, x, y) == Others(ms, y, x)
    decreases |ms|
  {
    if ms != [] { OthersSwap(ms[..|ms| - 1], x, y); }
  }

  /** One more modifier behind two listings whose keys differ only in the order of the first two. */
  lemma KeysBehind(a: seq<Modifier>, b: seq<Modifier>, m: Modifier, j: string, k: string, r: seq<string>)
      returns (r': seq<string>)
    requires KeysOf(a) == [j, k] + r && KeysOf(b) == [k, j] + r
    ensures KeysOf(a + [m]) == [j, k] + r' && KeysOf(b + [m]) == [k, j] + r'
  {
    KeysAppend(a, m);
    KeysAppend(b, m);
    r' := if KeyOf(m) == j || KeyOf(m) == k || KeyOf(m) in r then r else r + [KeyOf(m)];
    assert forall h :: h in [j, k] + r <==> h == j || h == k || h in r;
    assert forall h :: h in [k, j] + r <==> h == j || h == k || h in r;
    Reassociate([j, k], r, [KeyOf(m)]);
    Reassociate([k, j], r, [KeyOf(m)]);
  }

  /** What the rest q adds to the accepted modifiers of a kind. */
  lemma AcceptedNext(env: Available, phases: seq<string>, seen: seq<Modifier>, m: Modifier, kind: Kind)
    ensures var s, g := Screen(env, phases, m), Only(Accept(env, phases, seen), kind);
            Only(Accept(env, phases, seen + [m]), kind) == if s.Accepted? && KindOf(s.m) == kind then g + [s.m] else g
  {
    ScreenNext(env, phases, seen, m);
    var s := Screen(env, phases, m);
    if s.Accepted? { OnlyAppend(Accept(env, phases, seen), s.m, kind); }
  }

  /** The keys are those of x, y and others, in both orders, and the appends are the same. */
  ghost predicate Swapped(env: Available, phases: seq<string>, side: Kind, a: seq<Modifier>, b: seq<Modifier>,
                          j: string, k: string, r: seq<string>)
  {
    var x, y := Accept(env, phases, a), Accept(env, phases, b);
    KeysOf(Only(x, side)) == [j, k] + r && KeysOf(Only(y, side)) == [k, j] + r && Only(x, AtEnd) == Only(y, AtEnd)
  }

  lemma SwappedNext(env: Available, phases: seq<string>, side: Kind, a: seq<Modifier>, b: seq<Modifier>, m: Modifier,
                    j: string, k: string, r: seq<string>) returns (r': seq<string>)
    requires Swapped(env, phases, side, a, b, j, k, r)
    ensures Swapped(env, phases, side, a + [m], b + [m], j, k, r')
  {
    AcceptedNext(env, phases, a, m, side);
    AcceptedNext(env, phases, b, m, side);
    AcceptedNext(env, phases, a, m, AtEnd);
    AcceptedNext(env, phases, b, m, AtEnd);
    var s := Screen(env, phases, m);
    r' := r;
    if s.Accepted? && KindOf(s.m) == side {
      r' := KeysBehind(Only(Accept(env, phases, a), side), Only(Accept(env, phases, b), side), s.m, j, k, r);
    }
  }

  lemma {:induction false} SwappedBehind(env: Available, phases: seq<string>, side: Kind, a: seq<Modifier>,
                                         b: seq<Modifier>, q: seq<Modifier>, a': seq<Modifier>, b': seq<Modifier>,
                                         j: string, k: string, r: seq<string>)
      returns (r': seq<string>)
    requires Swapped(env, phases, side, a, b, j, k, r) && a' == a + q && b' == b + q
    ensures Swapped(env, phases, side, a', b', j, k, r')
    decreases |q|
  {
    if q == [] {
      assert a' == a && b' == b;
      r' := r;
    } else {
      r' := SwappedNext(env, phases, side, a, b, q[0], j, k, r);
      assert a' == a + [q[0]] + q[1..] && b' == b + [q[0]] + q[1..];
      r' := SwappedBehind(env, phases, side, a + [q[0]], b + [q[0]], q[1..], a', b', j, k, r');
    }
  }

  /** Two injections and what comes behind them. */
  lemma FrontKeys(env: Available, phases: seq<string>, side: Kind, x: Modifier, y: Modifier, q: seq<Modifier>)
      returns (r: seq<string>)
    requires Screen(env, phases, x).Accepted? && Screen(env, phases, y).Accepted?
    requires KindOf(x) == KindOf(y) == side && (side == Before || side == After) && KeyOf(x) != KeyOf(y)
    ensures Swapped(env, phases, side, [x, y] + q, [y, x] + q, KeyOf(x), KeyOf(y), r)
  {
    PairSwapped(env, phases, side, x, y);
    r := SwappedBehind(env, phases, side, [x, y], [y, x], q, [x, y] + q, [y, x] + q, KeyOf(x), KeyOf(y), []);
  }

  lemma PairSwapped(env: Available, phases: seq<string>, side: Kind, x: Modifier, y: Modifier)
    requires Screen(env, phases, x).Accepted? && Screen(env, phases, y).Accepted?
    requires KindOf(x) == KindOf(y) == side && (side == Before || side == After) && KeyOf(x) != KeyOf(y)
    ensures Swapped(env, phases, side, [x, y], [y, x], KeyOf(x), KeyOf(y), [])
  {
    FrontPair(env, phases, side, x, y);
    FrontPair(env, phases, side, y, x);
    NothingBehind([KeyOf(x), KeyOf(y)]);
    NothingBehind([KeyOf(y), KeyOf(x)]);
  }

  lemma NothingBehind(keys: seq<string>)
    ensures keys + [] == keys
  {
  }

  lemma FrontPair(env: Available, phases: seq<string>, side: Kind, x: Modifier, y: Modifier)
    requires Screen(env, phases, x).Accepted? && Screen(env, phases, y).Accepted?
    requires KindOf(x) == KindOf(y) == side && (side == Before || side == After) && KeyOf(x) != KeyOf(y)
    ensures KeysOf(Only(Accept(env, phases, [x, y]), side)) == [KeyOf(x), KeyOf(y)]
    ensures Only(Accept(env, phases, [x, y]), AtEnd) == []
  {
    PairAccepted(env, phases, x, y);
    PairKinds(x, y, side);
    PairKinds(x, y, AtEnd);
    PairKeys(x, y);
  }

  /** More ids and more steps. */
  ghost predicate Longer(s: seq<Step>, t: seq<Step>) { StepIds(t) <= StepIds(s) && |t| < |s| }

  /** A longer list with at least the same ids stays longer: whatever is found in the other is found in it. */
  lemma StaysLonger(side: Kind, g: seq<Modifier>, s: seq<Step>, t: seq<Step>, k: string)
    requires Ordinary(k) && Longer(s, t)
    ensures Longer(PutGroup(s, side, k, Block(g, k)), PutGroup(t, side, k, Block(g, k)))
  {
    FoundById(s, k);
    FoundById(t, k);
    IdsAfterPut(s, side, k, Block(g, k));
    IdsAfterPut(t, side, k, Block(g, k));
  }

  lemma FoundById(s: seq<Step>, k: string)
    ensures Find(s, k) >= 0 <==> k in StepIds(s)
  {
    if x :| x in s && x.id == k {
      var i :| 0 <= i < |s| && s[i] == x;
      assert s[i].id == k;
    }
  }

  lemma IdsAfterPut(s: seq<Step>, side: Kind, k: string, block: seq<Step>)
    ensures var r := PutGroup(s, side, k, block);
            && StepIds(r) == (if Locate(s, k) >= 0 then StepIds(s) + StepIds(block) else StepIds(s))
            && |r| == if Locate(s, k) >= 0 then |s| + |block| else |s|
  {
    var i := Locate(s, k);
    if i >= 0 { IdsOfPut(s, Place(side, i), block); }
  }

  lemma IdsOfPut(s: seq<Step>, at: nat, block: seq<Step>)
    requires at <= |s|
    ensures StepIds(PutAt(s, at, block)) == StepIds(s) + StepIds(block)
  {
    assert s == s[..at] + s[at..];
    forall x ensures x in PutAt(s, at, block) <==> x in s || x in block { }
  }

  lemma {:induction false} StaysLongerAll(side: Kind, g: seq<Modifier>, s: seq<Step>, t: seq<Step>, keys: seq<string>)
    requires (forall i :: 0 <= i < |keys| ==> Ordinary(keys[i])) && Longer(s, t)
    ensures Longer(Fold(Put(side, g), s, keys), Fold(Put(side, g), t, keys))
    decreases |keys|
  {
    if keys != [] {
      var n := |keys| - 1;
      StaysLongerAll(side, g, s, t, keys[..n]);
      StaysLonger(side, g, Fold(Put(side, g), s, keys[..n]), Fold(Put(side, g), t, keys[..n]), keys[n]);
    }
  }

  /** On a flow that has the one target only, the other one is found if its group comes second. */
  lemma SecondFound(side: Kind, j: string, a: seq<Step>, k: string, b: seq<Step>)
    requires Ordinary(j) && Ordinary(k) && j != k && !Avoids(k, a) && b != []
    ensures Longer(Both([Plain(j)], side, j, a, k, b), Both([Plain(j)], side, k, b, j, a))
  {
    var one := [Plain(j)];
    var i :| 0 <= i < |a| && a[i].id == k;
    assert a[i] in a && k in StepIds(a);
    FindIs(one, k, -1);
    IdsAfterPut(one, side, j, a);
    var r := PutGroup(one, side, j, a);
    FindIs(one, j, 0);
    FoundById(r, k);
    IdsAfterPut(r, side, k, b);
  }

  /** Different lengths after the injections are different lengths in the end. */
  lemma {:induction false} AppendsAlike(p: Progress, p': Progress, phases: seq<string>, keys: seq<string>,
                                        e: seq<Modifier>)
    ensures |AppendAll(p, phases, keys, e).steps| - |p.steps| == |AppendAll(p', phases, keys, e).steps| - |p'.steps|
    decreases |keys|
  {
    if keys != [] {
      var n := |keys| - 1;
      AppendsAlike(p, p', phases, keys[..n], e);
      var block := StepsFrom(Group(e, keys[n]));
      AppendStepsLength(AppendAll(p, phases, keys[..n], e).steps, phases, block);
      AppendStepsLength(AppendAll(p', phases, keys[..n], e).steps, phases, block);
    }
  }

  /** Injections on one side, then appends. */
  lemma OneSidedApply(env: Available, flow: Flow, ms: seq<Modifier>, side: Kind) returns (p: Progress)
    requires (side == Before || side == After) && OneSided(env, flow.phases, ms, side)
    ensures var g, e := Only(Accept(env, flow.phases, ms), side), Only(Accept(env, flow.phases, ms), AtEnd);
            p.steps == Fold(Put(side, g), flow.steps, KeysOf(g))
                && Apply(env, flow, ms) == AppendAll(p, flow.phases, KeysOf(e), e)
  {
    var g := Only(Accept(env, flow.phases, ms), side);
    var p0 := Progress(flow.steps, Refusals(env, flow.phases, ms));
    NothingElse(env, flow.phases, ms, side, Single);
    NothingElse(env, flow.phases, ms, side, if side == Before then After else Before);
    p := InjectAll(p0, side, KeysOf(g), g);
    InjectsFold(p0, side, KeysOf(g), g);
  }

  /** A list with a group in front of the one whose target it injects, and the other way round. */
  lemma OrderShows(env: Available, flow: Flow, ms: seq<Modifier>, side: Kind, x: Modifier, y: Modifier)
    requires DistinctModifiers(ms) && (side == Before || side == After) && OneSided(env, flow.phases, ms, side)
    requires x in ms && y in ms && Screen(env, flow.phases, x).Accepted? && Screen(env, flow.phases, y).Accepted?
    requires KindOf(x) == KindOf(y) == side && KeyOf(x) != KeyOf(y)
    requires !Avoids(KeyOf(y), Block(Only(Accept(env, flow.phases, ms), side), KeyOf(x)))
    ensures var f := flow.(steps := [Plain(KeyOf(x))]);
            |Apply(env, f, InFront(ms, y, x)).steps| < |Apply(env, f, InFront(ms, x, y)).steps|
  {
    var f, a, b := flow.(steps := [Plain(KeyOf(x))]), InFront(ms, x, y), InFront(ms, y, x);
    InFrontIsListing(ms, x, y);
    InFrontIsListing(ms, y, x);
    OthersSwap(ms, x, y);
    OneSidedSame(env, flow.phases, ms, a, side);
    OneSidedSame(env, flow.phases, ms, b, side);
    var r := FrontKeys(env, flow.phases, side, x, y, Others(ms, x, y));
    var ga, gb := Only(Accept(env, flow.phases, a), side), Only(Accept(env, flow.phases, b), side);
    var pa := OneSidedApply(env, f, a, side);
    var pb := OneSidedApply(env, f, b, side);
    FrontLonger(env, flow.phases, ms, a, b, side, x, y, r);
    var e := Only(Accept(env, flow.phases, a), AtEnd);
    AppendsAlike(pa, pb, flow.phases, KeysOf(e), e);
  }

  /** The same members in other listings: the blocks are the same. */
  lemma SameBlock(env: Available, phases: seq<string>, ms: seq<Modifier>, ms': seq<Modifier>, side: Kind, k: string)
    requires DistinctModifiers(ms) && DistinctModifiers(ms') && SameMembers(ms, ms')
    ensures Block(Only(Accept(env, phases, ms), side), k) == Block(Only(Accept(env, phases, ms'), side), k)
  {
    SamePieces(env, phases, ms, ms', side);
    SameGroup(Only(Accept(env, phases, ms), side), Only(Accept(env, phases, ms'), side), k);
  }

  lemma {:induction false} SameFold(side: Kind, g: seq<Modifier>, g': seq<Modifier>, s: seq<Step>, keys: seq<string>)
    requires forall k :: Block(g, k) == Block(g', k)
    ensures Fold(Put(side, g), s, keys) == Fold(Put(side, g'), s, keys)
    decreases |keys|
  {
    if keys != [] {
      SameFold(side, g, g', s, keys[..|keys| - 1]);
      assert Block(g, keys[|keys| - 1]) == Block(g', keys[|keys| - 1]);
    }
  }

  lemma BlockNotEmpty(g: seq<Modifier>, k: string)
    requires k in KeysOf(g)
    ensures Block(g, k) != []
  {
    KeyOfMember(g, k);
    GroupIn(g, k);
    var m :| m in g && KeyOf(m) == k;
    assert m in Group(g, k);
  }

  lemma FrontLongerHere(side: Kind, g: seq<Modifier>, j: string, k: string, r: seq<string>)
    requires KeysOf(g) == [j, k] + r && (forall h :: h in KeysOf(g) ==> Ordinary(h)) && j != k
    requires !Avoids(k, Block(g, j))
    ensures Longer(Fold(Put(side, g), [Plain(j)], [j, k] + r), Fold(Put(side, g), [Plain(j)], [k, j] + r))
  {
    FrontOrdinary(g, j, k, r);
    BlockNotEmpty(g, k);
    TwoThen(Put(side, g), [Plain(j)], j, k, r);
    TwoThen(Put(side, g), [Plain(j)], k, j, r);
    FrontStaysLonger(side, g, j, k, r);
  }

  lemma FrontStaysLonger(side: Kind, g: seq<Modifier>, j: string, k: string, r: seq<string>)
    requires Ordinary(j) && Ordinary(k) && j != k && !Avoids(k, Block(g, j)) && Block(g, k) != []
    requires forall i :: 0 <= i < |r| ==> Ordinary(r[i])
    ensures var f, s := Put(side, g), [Plain(j)]; Longer(Fold(f, f(f(s, j), k), r), Fold(f, f(f(s, k), j), r))
  {
    var s, a, b := [Plain(j)], Block(g, j), Block(g, k);
    SecondFound(side, j, a, k, b);
    StaysLongerAll(side, g, Both(s, side, j, a, k, b), Both(s, side, k, b, j, a), r);
  }

  lemma TwoThen<T>(f: (seq<Step>, T) -> seq<Step>, s: seq<Step>, j: T, k: T, r: seq<T>)
    ensures Fold(f, s, [j, k] + r) == Fold(f, f(f(s, j), k), r)
  {
    FoldConcat(f, s, [j, k], r);
    TwoSteps(f, s, j, k);
  }

  lemma FrontLonger(env: Available, phases: seq<string>, ms: seq<Modifier>, a: seq<Modifier>, b: seq<Modifier>,
                    side: Kind, x: Modifier, y: Modifier, r: seq<string>)
    requires DistinctModifiers(ms) && DistinctModifiers(a) && DistinctModifiers(b) && SameMembers(ms, a)
    requires SameMembers(ms, b)
    requires side != AtEnd && OneSided(env, phases, a, side) && KeyOf(x) != KeyOf(y)
    requires KeysOf(Only(Accept(env, phases, a), side)) == [KeyOf(x), KeyOf(y)] + r
    requires !Avoids(KeyOf(y), Block(Only(Accept(env, phases, ms), side), KeyOf(x)))
    ensures var ga, gb, s := Only(Accept(env, phases, a), side), Only(Accept(env, phases, b), side), [Plain(KeyOf(x))];
            Longer(Fold(Put(side, ga), s, [KeyOf(x), KeyOf(y)] + r), Fold(Put(side, gb), s, [KeyOf(y), KeyOf(x)] + r))
  {
    var ga, gb, j, k := Only(Accept(env, phases, a), side), Only(Accept(env, phases, b), side), KeyOf(x), KeyOf(y);
    forall h ensures Block(gb, h) == Block(ga, h) { SameBlock(env, phases, a, b, side, h); }
    SameFold(side, gb, ga, [Plain(j)], [k, j] + r);
    SameBlock(env, phases, ms, a, side, j);
    OrdinaryKeys(env, phases, a, side);
    FrontLongerHere(side, ga, j, k, r);
  }

  lemma FrontOrdinary(g: seq<Modifier>, j: string, k: string, r: seq<string>)
    requires KeysOf(g) == [j, k] + r && forall h :: h in KeysOf(g) ==> Ordinary(h)
    ensures j in KeysOf(g) && k in KeysOf(g) && Ordinary(j) && Ordinary(k) && forall h :: h in r ==> Ordinary(h)
  {
    assert KeysOf(g)[0] == j && KeysOf(g)[1] == k;
    forall h | h in r ensures Ordinary(h) { assert h in [j, k] + r; }
  }

  /** An accepted injection is listed as it is. */
  lemma ListedInjection(env: Available, phases: seq<string>, ms: seq<Modifier>, x: Modifier)
    requires x in Accept(env, phases, ms) && (KindOf(x) == Before || KindOf(x) == After)
    ensures x in ms && Screen(env, phases, x).Accepted?
  {
    AcceptIn(env, phases, ms);
    var m :| m in ms && Screen(env, phases, m) == Accepted(x);
    assert m == x;
  }

  /** A key of an accepted injection comes from a listed modifier. */
  lemma InjectionOf(env: Available, phases: seq<string>, ms: seq<Modifier>, side: Kind, k: string) returns (m: Modifier)
    requires (side == Before || side == After) && k in KeysOf(Only(Accept(env, phases, ms), side))
    ensures m in ms && Screen(env, phases, m).Accepted? && KindOf(m) == side && KeyOf(m) == k
  {
    var g := Only(Accept(env, phases, ms), side);
    KeyOfMember(g, k);
    m :| m in g && KeyOf(m) == k;
    OnlyIn(Accept(env, phases, ms), side);
    ListedInjection(env, phases, ms, m);
  }

  lemma ApartEverywhere(env: Available, flow: Flow, ms: seq<Modifier>, side: Kind)
    requires DistinctModifiers(ms) && (side == Before || side == After) && OneSided(env, flow.phases, ms, side)
    requires TargetsApart(Only(Accept(env, flow.phases, ms), side))
    ensures AnyListing(env, flow, ms)
  {
    forall s, ms' | DistinctModifiers(ms') && SameMembers(ms, ms') ensures SameSteps(env, flow, ms, ms', s) {
      ApartInAnyOrder(env, flow.(steps := s), ms, ms', side);
    }
  }

  lemma InjectedTargetShows(env: Available, flow: Flow, ms: seq<Modifier>, side: Kind, j: string, k: string)
    requires DistinctModifiers(ms) && (side == Before || side == After) && OneSided(env, flow.phases, ms, side)
    requires var g := Only(Accept(env, flow.phases, ms), side);
             j in KeysOf(g) && k in KeysOf(g) && j != k && !Avoids(k, Block(g, j))
    ensures !AnyListing(env, flow, ms)
  {
    var x := InjectionOf(env, flow.phases, ms, side, j);
    var y := InjectionOf(env, flow.phases, ms, side, k);
    InFrontIsListing(ms, x, y);
    InFrontIsListing(ms, y, x);
    OrderShows(env, flow, ms, side, x, y);
    OneIsOther(env, flow, ms, InFront(ms, x, y), InFront(ms, y, x), [Plain(j)]);
  }

  /** Two listings that differ: one of them is not the given one. */
  lemma OneIsOther(env: Available, flow: Flow, ms: seq<Modifier>, a: seq<Modifier>, b: seq<Modifier>, s: seq<Step>)
    requires DistinctModifiers(a) && SameMembers(ms, a) && DistinctModifiers(b) && SameMembers(ms, b)
    requires Apply(env, flow.(steps := s), a).steps != Apply(env, flow.(steps := s), b).steps
    ensures !AnyListing(env, flow, ms)
  {
    assert !(SameSteps(env, flow, ms, a, s) && SameSteps(env, flow, ms, b, s));
  }

  /** Injections on one side of named steps, and appends, can be listed in any way, whatever the steps of the flow, if
      and only if no group injects another one's target. */
  lemma InjectionListsExactly(env: Available, flow: Flow, ms: seq<Modifier>, side: Kind)
    requires DistinctModifiers(ms) && (side == Before || side == After) && OneSided(env, flow.phases, ms, side)
    ensures AnyListing(env, flow, ms) <==> TargetsApart(Only(Accept(env, flow.phases, ms), side))
  {
    var g := Only(Accept(env, flow.phases, ms), side);
    if TargetsApart(g) {
      ApartEverywhere(env, flow, ms, side);
    } else {
      var j, k :| j in KeysOf(g) && k in KeysOf(g) && j != k && !Avoids(k, Block(g, j));
      InjectedTargetShows(env, flow, ms, side, j, k);
    }
  }

  // -------------------------------------------------- where the list order matters

  const FLOW := Flow("f", ["p"], [Plain("x").(phase := "p")], None, "")

  /** Injects a step called `id` before the step called `target`. */
  function Injection(name: string, target: string, id: string): Modifier {
    Modifier(name, "p", 0, InjectBefore, Some(target), Some(StepDict(Some(id), None, None, None, "")), [], [])
  }

  /** An injection whose target is the first step becomes the first step. */
  lemma HitFirst(s: seq<Step>, key: string, x: Step)
    requires s != [] && s[0].id == key && Ordinary(key)
    ensures PutGroup(s, Before, key, [x]) == [x] + s
  {
    assert s[..0] + [x] + s[0..] == [x] + s;
  }

  /** y before x, then z before y. */
  lemma ThreeSteps(y: Step, z: Step)
    requires Ordinary("x") && Ordinary("y") && y.id == "y"
    ensures |Both(FLOW.steps, Before, "x", [y], "y", [z])| == 3
  {
    HitFirst(FLOW.steps, "x", y);
    HitFirst([y] + FLOW.steps, "y", z);
  }

  lemma TwoStepsOnly(y: Step, z: Step)
    requires Ordinary("x") && Ordinary("y") && "x" != "y"
    ensures |Both(FLOW.steps, Before, "y", [z], "x", [y])| == 2
  {
    FindIs(FLOW.steps, "y", -1);
    HitFirst(FLOW.steps, "x", y);
  }

  /** Injecting y before x and z before y gives three steps in that order and two in the other: an injection that
      targets another one's step only finds it if its own group comes later. */
  lemma ListOrderMattersWithInterference()
    ensures var m, n := Injection("m", "x", "y"), Injection("n", "y", "z");
            |Apply(Available({}, {}), FLOW, [m, n]).steps| == 3 && |Apply(Available({}, {}), FLOW, [n, m]).steps| == 2
  {
    var m, n := Injection("m", "x", "y"), Injection("n", "y", "z");
    assert "x" != "y" && Ordinary("x") && Ordinary("y") by {
      assert |"x"| < |FIRST| && |"x"| < |LAST| && |"y"| < |FIRST| && |"y"| < |LAST|;
    }
    assert "p" in FLOW.phases;
    TwoInjections(Available({}, {}), FLOW, m, n);
    ThreeSteps(StepFrom(m), StepFrom(n));
    TwoInjections(Available({}, {}), FLOW, n, m);
    TwoStepsOnly(StepFrom(m), StepFrom(n));
  }
}
