/** When applying modifiers keeps a phase-sorted flow phase-sorted (flow_modifier.py). */
module ModifierPhases {
  import opened Orders
  import opened Flows
  import opened FlowModifier
  import opened ModifierLaws
  import opened ModifierOrder
  import opened ModifierDeterminism

  ghost predicate PhaseSorted(phases: seq<string>, s: seq<Step>) {
    forall i, j :: 0 <= i < j < |s| ==> PhaseIndex(phases, s[i].phase) <= PhaseIndex(phases, s[j].phase)
  }

  /** A replacement has the phase of the step it replaces. */
  ghost predicate ReplacesInPhase(phases: seq<string>, s: seq<Step>, m: Modifier) {
    var i := Locate(s, Target(m));
    m.action.Replace? && i >= 0 ==> PhaseIndex(phases, m.phase) == PhaseIndex(phases, s[i].phase)
  }

  /** Every replacement has the phase of what it finds at its target when its turn comes. */
  ghost predicate SinglesInPhase(phases: seq<string>, p: Progress, ms: seq<Modifier>)
    decreases |ms|
  {
    ms != [] ==>
      var before, m := ms[..|ms| - 1], ms[|ms| - 1];
      SinglesInPhase(phases, p, before) && ReplacesInPhase(phases, ApplySingles(p, before).steps, m)
  }

  /** A block has the phase of the step that stands at its target. */
  ghost predicate BlockInPhase(phases: seq<string>, s: seq<Step>, key: string, block: seq<Step>) {
    var i := Locate(s, key);
    i >= 0 ==> OfRank(phases, PhaseIndex(phases, s[i].phase), block)
  }

  /** Every injected group has the phase of what it finds at its target when its turn comes. */
  ghost predicate GroupsInPhase(phases: seq<string>, p: Progress, side: Kind, keys: seq<string>, ms: seq<Modifier>)
    decreases |keys|
  {
    keys != [] ==>
      var n := |keys| - 1;
      GroupsInPhase(phases, p, side, keys[..n], ms)
          && BlockInPhase(phases, InjectAll(p, side, keys[..n], ms).steps, keys[n], Block(ms, keys[n]))
  }

  lemma ReplacedSorted(phases: seq<string>, s: seq<Step>, i: nat, x: Step)
    requires PhaseSorted(phases, s) && i < |s| && PhaseIndex(phases, x.phase) == PhaseIndex(phases, s[i].phase)
    ensures PhaseSorted(phases, s[i := x])
  {
  }

  lemma RemovedSorted(phases: seq<string>, s: seq<Step>, i: nat)
    requires PhaseSorted(phases, s) && i < |s|
    ensures PhaseSorted(phases, s[..i] + s[i + 1..])
  {
    var r := s[..i] + s[i + 1..];
    forall j | 0 <= j < |r| ensures r[j] == s[if j < i then j else j + 1] { }
  }

  lemma SingleKeepsPhases(phases: seq<string>, p: Progress, m: Modifier)
    requires PhaseSorted(phases, p.steps) && ReplacesInPhase(phases, p.steps, m)
    ensures PhaseSorted(phases, ApplySingle(p, m).steps)
  {
    var i := ActsAt(p.steps, m);
    SingleIs(p, m);
    if i >= 0 && m.action.Replace? {
      ReplacedSorted(phases, p.steps, i, StepFrom(m));
    } else if i >= 0 {
      RemovedSorted(phases, p.steps, i);
    }
  }

  lemma {:induction false} SinglesKeepPhases(phases: seq<string>, p: Progress, ms: seq<Modifier>)
    requires PhaseSorted(phases, p.steps) && SinglesInPhase(phases, p, ms)
    ensures PhaseSorted(phases, ApplySingles(p, ms).steps)
    decreases |ms|
  {
    if ms != [] {
      SinglesKeepPhases(phases, p, ms[..|ms| - 1]);
      SingleKeepsPhases(phases, ApplySingles(p, ms[..|ms| - 1]), ms[|ms| - 1]);
    }
  }

  /** Inserting a block of one rank next to a step of that rank. */
  lemma BlockBeside(phases: seq<string>, s: seq<Step>, i: nat, at: nat, block: seq<Step>)
    requires PhaseSorted(phases, s) && i < |s| && i <= at <= i + 1
    requires OfRank(phases, PhaseIndex(phases, s[i].phase), block)
    ensures PhaseSorted(phases, s[..at] + block + s[at..])
  {
    var r := s[..at] + block + s[at..];
    forall j, k | 0 <= j < k < |r| ensures PhaseIndex(phases, r[j].phase) <= PhaseIndex(phases, r[k].phase) {
      BesideRank(phases, s, i, at, block, j);
      BesideRank(phases, s, i, at, block, k);
    }
  }

  lemma BesideRank(phases: seq<string>, s: seq<Step>, i: nat, at: nat, block: seq<Step>, k: nat)
    requires i < |s| && i <= at <= i + 1 && k < |s| + |block|
    requires OfRank(phases, PhaseIndex(phases, s[i].phase), block)
    ensures var r := s[..at] + block + s[at..];
            PhaseIndex(phases, r[k].phase) == if k < at then PhaseIndex(phases, s[k].phase)
                                              else if k < at + |block| then PhaseIndex(phases, s[i].phase)
                                              else PhaseIndex(phases, s[k - |block|].phase)
  {
    var r := s[..at] + block + s[at..];
    if at <= k < at + |block| { assert r[k] == block[k - at] && r[k] in block; }
  }

  lemma InjectedAt(p: Progress, side: Kind, key: string, ms: seq<Modifier>)
    ensures var i := Locate(p.steps, key);
            InjectGroup(p, side, key, Group(ms, key)).steps ==
            if i < 0 then p.steps
            else if side == Before then p.steps[..i] + Block(ms, key) + p.steps[i..]
            else p.steps[..i + 1] + Block(ms, key) + p.steps[i + 1..]
  {
  }

  lemma BesideSorted(phases: seq<string>, s: seq<Step>, i: nat, at: nat, block: seq<Step>, r: seq<Step>)
    requires PhaseSorted(phases, s) && i < |s| && i <= at <= i + 1 && r == s[..at] + block + s[at..]
    requires OfRank(phases, PhaseIndex(phases, s[i].phase), block)
    ensures PhaseSorted(phases, r)
  {
    BlockBeside(phases, s, i, at, block);
  }

  lemma InjectionKeepsPhases(phases: seq<string>, p: Progress, side: Kind, key: string, ms: seq<Modifier>)
    requires PhaseSorted(phases, p.steps) && BlockInPhase(phases, p.steps, key, Block(ms, key))
    ensures PhaseSorted(phases, InjectGroup(p, side, key, Group(ms, key)).steps)
  {
    var i, r := Locate(p.steps, key), InjectGroup(p, side, key, Group(ms, key)).steps;
    InjectedAt(p, side, key, ms);
    if i >= 0 { BesideSorted(phases, p.steps, i, if side == Before then i else i + 1, Block(ms, key), r); }
  }

  lemma {:induction false} InjectionsKeepPhases(phases: seq<string>, p: Progress, side: Kind, keys: seq<string>,
                                                ms: seq<Modifier>)
    requires PhaseSorted(phases, p.steps) && GroupsInPhase(phases, p, side, keys, ms)
    ensures PhaseSorted(phases, InjectAll(p, side, keys, ms).steps)
    decreases |keys|
  {
    if keys != [] {
      var n := |keys| - 1;
      InjectionsKeepPhases(phases, p, side, keys[..n], ms);
      InjectionKeepsPhases(phases, InjectAll(p, side, keys[..n], ms), side, keys[n], ms);
    }
  }

  /** Inserting a step after lower or equal ranks and before higher ones. */
  lemma StepBetween(phases: seq<string>, s: seq<Step>, at: nat, x: Step)
    requires PhaseSorted(phases, s) && at <= |s|
    requires forall k :: 0 <= k < at ==> PhaseIndex(phases, s[k].phase) <= PhaseIndex(phases, x.phase)
    requires forall k :: at <= k < |s| ==> PhaseIndex(phases, s[k].phase) >= PhaseIndex(phases, x.phase)
    ensures PhaseSorted(phases, s[..at] + [x] + s[at..])
  {
    var r := s[..at] + [x] + s[at..];
    forall i, j | 0 <= i < j < |r| ensures PhaseIndex(phases, r[i].phase) <= PhaseIndex(phases, r[j].phase) {
      assert r[i] == if i < at then s[i] else if i == at then x else s[i - 1];
      assert r[j] == if j < at then s[j] else if j == at then x else s[j - 1];
    }
  }

  lemma AppendKeepsPhases(phases: seq<string>, s: seq<Step>, x: Step)
    requires PhaseSorted(phases, s)
    ensures PhaseSorted(phases, AppendStep(s, phases, x))
  {
    var rank := PhaseIndex(phases, x.phase);
    var at := EndOfPhase(s, phases, rank);
    forall k | at <= k < |s| ensures PhaseIndex(phases, s[k].phase) > rank {
      assert k > at ==> PhaseIndex(phases, s[at].phase) <= PhaseIndex(phases, s[k].phase);
    }
    StepBetween(phases, s, at, x);
  }

  lemma {:induction false} AppendsKeepPhases(phases: seq<string>, s: seq<Step>, xs: seq<Step>)
    requires PhaseSorted(phases, s)
    ensures PhaseSorted(phases, AppendSteps(s, phases, xs))
    decreases |xs|
  {
    if xs != [] {
      AppendsKeepPhases(phases, s, xs[..|xs| - 1]);
      AppendKeepsPhases(phases, AppendSteps(s, phases, xs[..|xs| - 1]), xs[|xs| - 1]);
    }
  }

  lemma {:induction false} AllAppendsKeepPhases(phases: seq<string>, p: Progress, keys: seq<string>, ms: seq<Modifier>)
    requires PhaseSorted(phases, p.steps)
    ensures PhaseSorted(phases, AppendAll(p, phases, keys, ms).steps)
    decreases |keys|
  {
    if keys != [] {
      var n := |keys| - 1;
      AllAppendsKeepPhases(phases, p, keys[..n], ms);
      AppendsKeepPhases(phases, AppendAll(p, phases, keys[..n], ms).steps, StepsFrom(Group(ms, keys[n])));
    }
  }

  /** Every step that replaces one or is injected beside one has its phase, position by position as the run
      finds them. */
  ghost predicate RunInPhase(env: Available, flow: Flow, ms: seq<Modifier>) {
    var active := Accept(env, flow.phases, ms);
    var b, a := Only(active, Before), Only(active, After);
    var p0 := Progress(flow.steps, Refusals(env, flow.phases, ms));
    var p1 := ApplySingles(p0, Only(active, Single));
    var p2 := InjectAll(p1, Before, KeysOf(b), b);
    && SinglesInPhase(flow.phases, p0, Only(active, Single))
    && GroupsInPhase(flow.phases, p1, Before, KeysOf(b), b)
    && GroupsInPhase(flow.phases, p2, After, KeysOf(a), a)
  }

  /** A phase-sorted flow stays phase-sorted when every replaced or injected step has its target's phase. */
  lemma PhasesStaySorted(env: Available, flow: Flow, ms: seq<Modifier>)
    requires PhaseSorted(flow.phases, flow.steps) && RunInPhase(env, flow, ms)
    ensures PhaseSorted(flow.phases, Apply(env, flow, ms).steps)
  {
    var active := Accept(env, flow.phases, ms);
    var b, a, e := Only(active, Before), Only(active, After), Only(active, AtEnd);
    var p0 := Progress(flow.steps, Refusals(env, flow.phases, ms));
    var p1 := ApplySingles(p0, Only(active, Single));
    var p2 := InjectAll(p1, Before, KeysOf(b), b);
    SinglesKeepPhases(flow.phases, p0, Only(active, Single));
    InjectionsKeepPhases(flow.phases, p1, Before, KeysOf(b), b);
    InjectionsKeepPhases(flow.phases, p2, After, KeysOf(a), a);
    AllAppendsKeepPhases(flow.phases, InjectAll(p2, After, KeysOf(a), a), KeysOf(e), e);
  }

  // --------------------------------------------------- ids that tell the phase

  /** Every step lies in the phase that belongs to its id. */
  ghost predicate Typed(phaseOf: string -> string, s: seq<Step>) {
    forall x :: x in s ==> x.phase == phaseOf(x.id)
  }

  /** A replacement or injection names its target by id, and its step lies in the target's phase. */
  ghost predicate TypedModifier(phaseOf: string -> string, m: Modifier) {
    (m.action.Replace? || m.action.InjectBefore? || m.action.InjectAfter?) ==>
      && Target(m) != FIRST && Target(m) != LAST
      && m.phase == phaseOf(Target(m)) && m.phase == phaseOf(StepFrom(m).id)
  }

  lemma TypedAt(phaseOf: string -> string, s: seq<Step>, i: nat)
    requires Typed(phaseOf, s) && i < |s|
    ensures s[i].phase == phaseOf(s[i].id)
  {
    assert s[i] in s;
  }

  lemma SingleTyped(phaseOf: string -> string, phases: seq<string>, p: Progress, m: Modifier)
    requires Typed(phaseOf, p.steps) && TypedModifier(phaseOf, m)
    ensures ReplacesInPhase(phases, p.steps, m) && Typed(phaseOf, ApplySingle(p, m).steps)
  {
    var i := Locate(p.steps, Target(m));
    if i >= 0 && m.action.Replace? { TypedAt(phaseOf, p.steps, i); }
  }

  lemma {:induction false} SinglesTyped(phaseOf: string -> string, phases: seq<string>, p: Progress, ms: seq<Modifier>)
    requires Typed(phaseOf, p.steps) && forall m :: m in ms ==> TypedModifier(phaseOf, m)
    ensures SinglesInPhase(phases, p, ms) && Typed(phaseOf, ApplySingles(p, ms).steps)
    decreases |ms|
  {
    if ms != [] {
      SinglesTyped(phaseOf, phases, p, ms[..|ms| - 1]);
      SingleTyped(phaseOf, phases, ApplySingles(p, ms[..|ms| - 1]), ms[|ms| - 1]);
    }
  }

  lemma TypedConcat(phaseOf: string -> string, a: seq<Step>, b: seq<Step>, c: seq<Step>)
    requires Typed(phaseOf, a + c) && Typed(phaseOf, b)
    ensures Typed(phaseOf, a + b + c)
  {
    forall x | x in a + b + c ensures x.phase == phaseOf(x.id) {
      assert x in a + c || x in b;
    }
  }

  ghost predicate TypedInjections(phaseOf: string -> string, ms: seq<Modifier>) {
    forall m :: m in ms ==> (m.action.InjectBefore? || m.action.InjectAfter?) && TypedModifier(phaseOf, m)
  }

  lemma BlockTyped(phaseOf: string -> string, ms: seq<Modifier>, key: string)
    requires TypedInjections(phaseOf, ms)
    ensures Typed(phaseOf, Block(ms, key)) && forall x :: x in Block(ms, key) ==> x.phase == phaseOf(key)
  {
    GroupIn(ms, key);
    var g := Group(ms, key);
    forall x | x in Block(ms, key) ensures x.phase == phaseOf(x.id) && x.phase == phaseOf(key) {
      var i :| 0 <= i < |g| && StepsFrom(g)[i] == x;
      assert g[i] in g;
    }
  }

  lemma TypedAround(phaseOf: string -> string, s: seq<Step>, at: nat, block: seq<Step>)
    requires Typed(phaseOf, s) && Typed(phaseOf, block) && at <= |s|
    ensures Typed(phaseOf, s[..at] + block + s[at..])
  {
    assert s[..at] + s[at..] == s;
    TypedConcat(phaseOf, s[..at], block, s[at..]);
  }

  lemma InjectionTyped(phaseOf: string -> string, phases: seq<string>, p: Progress, side: Kind, key: string,
                       ms: seq<Modifier>)
    requires Typed(phaseOf, p.steps) && TypedInjections(phaseOf, ms) && key != FIRST && key != LAST
    ensures BlockInPhase(phases, p.steps, key, Block(ms, key))
    ensures Typed(phaseOf, InjectGroup(p, side, key, Group(ms, key)).steps)
  {
    var i := Locate(p.steps, key);
    InjectedAt(p, side, key, ms);
    BlockTyped(phaseOf, ms, key);
    if i >= 0 {
      TypedAt(phaseOf, p.steps, i);
      TypedAround(phaseOf, p.steps, i, Block(ms, key));
      TypedAround(phaseOf, p.steps, i + 1, Block(ms, key));
    }
  }

  lemma {:induction false} InjectionsTyped(phaseOf: string -> string, phases: seq<string>, p: Progress, side: Kind,
                                           keys: seq<string>, ms: seq<Modifier>)
    requires Typed(phaseOf, p.steps) && TypedInjections(phaseOf, ms)
    requires FIRST !in keys && LAST !in keys
    ensures GroupsInPhase(phases, p, side, keys, ms) && Typed(phaseOf, InjectAll(p, side, keys, ms).steps)
    decreases |keys|
  {
    if keys != [] {
      var n := |keys| - 1;
      assert keys[n] in keys;
      InjectionsTyped(phaseOf, phases, p, side, keys[..n], ms);
      InjectionTyped(phaseOf, phases, InjectAll(p, side, keys[..n], ms), side, keys[n], ms);
    }
  }

  lemma InjectionKind(phaseOf: string -> string, active: seq<Modifier>, k: Kind)
    requires (k == Before || k == After) && forall m :: m in active ==> TypedModifier(phaseOf, m)
    ensures TypedInjections(phaseOf, Only(active, k))
    ensures FIRST !in KeysOf(Only(active, k)) && LAST !in KeysOf(Only(active, k))
  {
    var q := Only(active, k);
    OnlyIn(active, k);
    KeysDistinct(q);
    forall key | key in KeysOf(q) ensures key != FIRST && key != LAST {
      var i :| 0 <= i < |q| && KeyOf(q[i]) == key;
      assert q[i] in q;
    }
  }

  /** In particular when ids tell phases and every replacement or injection is of its target's phase. */
  lemma TypedPhasesStaySorted(phaseOf: string -> string, env: Available, flow: Flow, ms: seq<Modifier>)
    requires PhaseSorted(flow.phases, flow.steps) && Typed(phaseOf, flow.steps)
    requires forall m :: m in ms ==> TypedModifier(phaseOf, m)
    ensures RunInPhase(env, flow, ms) && PhaseSorted(flow.phases, Apply(env, flow, ms).steps)
  {
    var active := Accept(env, flow.phases, ms);
    var b, a := Only(active, Before), Only(active, After);
    AcceptTyped(phaseOf, env, flow.phases, ms);
    OnlyIn(active, Single);
    InjectionKind(phaseOf, active, Before);
    InjectionKind(phaseOf, active, After);
    var p0 := Progress(flow.steps, Refusals(env, flow.phases, ms));
    var p1 := ApplySingles(p0, Only(active, Single));
    SinglesTyped(phaseOf, flow.phases, p0, Only(active, Single));
    InjectionsTyped(phaseOf, flow.phases, p1, Before, KeysOf(b), b);
    InjectionsTyped(phaseOf, flow.phases, InjectAll(p1, Before, KeysOf(b), b), After, KeysOf(a), a);
    PhasesStaySorted(env, flow, ms);
  }

  lemma AcceptTyped(phaseOf: string -> string, env: Available, phases: seq<string>, ms: seq<Modifier>)
    requires forall m :: m in ms ==> TypedModifier(phaseOf, m)
    ensures forall m :: m in Accept(env, phases, ms) ==> TypedModifier(phaseOf, m)
  {
    AcceptIn(env, phases, ms);
    forall x | x in Accept(env, phases, ms) ensures TypedModifier(phaseOf, x) {
      var m :| m in ms && Screen(env, phases, m) == Accepted(x);
    }
  }
}
