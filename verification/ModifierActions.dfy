/** What each action of a modifier does, told by the action itself (flow_modifier.py). */
module ModifierActions {
  import opened Orders
  import opened Flows
  import opened FlowModifier
  import opened ModifierLaws
  import opened ModifierOrder
  import opened ModifierDeterminism

  // ------------------------------------------------------------------- screening

  /** Everything a modifier requires is there, and its phase is one of the flow's, or it is appended and the flow has a
      phase at all. */
  ghost predicate Eligible(env: Available, phases: seq<string>, m: Modifier) {
    && (forall x :: x in m.interfaces ==> x in env.interfaces)
    && (forall x :: x in m.capabilities ==> x in env.capabilities)
    && (m.phase in phases || (m.action == Append && phases != []))
  }

  /** Exactly the eligible modifiers are accepted, as they are but for the phase of an append to an unknown one; a
      missing requirement is reported before an unknown phase. */
  lemma ScreenExactly(env: Available, phases: seq<string>, m: Modifier)
    ensures Screen(env, phases, m).Accepted? <==> Eligible(env, phases, m)
    ensures m.phase in phases && Eligible(env, phases, m) ==> Screen(env, phases, m) == Accepted(m)
    ensures m.phase !in phases && Eligible(env, phases, m) ==>
              Screen(env, phases, m) == Accepted(m.(phase := phases[|phases| - 1]))
    ensures !Eligible(env, phases, m) ==>
              Screen(env, phases, m) == Refused(
                if (exists x :: x in m.interfaces && x !in env.interfaces)
                    || (exists x :: x in m.capabilities && x !in env.capabilities)
                then RequiresNotSatisfied else PhaseNotFound)
  {
  }

  /** A modifier step carries the fields of its dict, or the defaults, and the phase of the modifier. */
  lemma StepOfModifier(m: Modifier)
    ensures StepFrom(m).phase == m.phase
    ensures m.step == None ==> StepFrom(m) == Step("_modifier_" + m.id, m.phase, 100, "handler", None, "")
    ensures forall d :: m.step == Some(d) ==>
              && StepFrom(m).rest == d.rest && StepFrom(m).dependsOn == d.dependsOn
              && (d.id == None ==> StepFrom(m).id == "_modifier_" + m.id)
                  && (d.priority == None ==> StepFrom(m).priority == 100)
              && (d.kind == None ==> StepFrom(m).kind == "handler")
              && (forall x :: d.id == Some(x) ==> StepFrom(m).id == x)
              && (forall x :: d.priority == Some(x) ==> StepFrom(m).priority == x)
              && (forall x :: d.kind == Some(x) ==> StepFrom(m).kind == x)
  {
  }

  // ------------------------------------------------------------- a modifier alone

  /** The target of a modifier is the step at i: the first or the last one, or the first with that id. */
  ghost predicate FoundAt(s: seq<Step>, m: Modifier, i: nat) {
    && i < |s|
    && var target := if m.target.Some? then m.target.value else "";
       if target == "__first__" then i == 0
       else if target == "__last__" then i == |s| - 1
       else s[i].id == target && forall k :: 0 <= k < i ==> s[k].id != target
  }

  lemma FoundExactly(s: seq<Step>, m: Modifier, i: nat)
    ensures FoundAt(s, m, i) <==> Locate(s, Target(m)) == i
  {
  }

  /** Where an appended step goes: behind everything whose phase is not a later one. */
  ghost predicate EndAt(s: seq<Step>, phases: seq<string>, phase: string, i: nat) {
    && i <= |s|
    && (forall k :: 0 <= k < i ==> PhaseIndex(phases, s[k].phase) <= PhaseIndex(phases, phase))
    && (i < |s| ==> PhaseIndex(phases, s[i].phase) > PhaseIndex(phases, phase))
  }

  lemma AloneAccepted(env: Available, phases: seq<string>, m: Modifier)
    ensures var s := Screen(env, phases, m);
            && Accept(env, phases, [m]) == (if s.Accepted? then [s.m] else [])
            && Refusals(env, phases, [m]) == if s.Refused? then [Skip(m, s.reason)] else []
  {
    assert [m] == [] + [m];
    ScreenNext(env, phases, [], m);
    assert [] + [Screen(env, phases, m)] == [Screen(env, phases, m)];
  }

  lemma AloneOfKind(m: Modifier, k: Kind)
    ensures Only([m], k) == if KindOf(m) == k then [m] else []
    ensures Only([], k) == []
  {
    assert [m] == [] + [m];
    OnlyAppend([], m, k);
  }

  lemma AloneGrouped(m: Modifier)
    ensures KeysOf([m]) == [KeyOf(m)] && KeysOf([]) == [] && Group([m], KeyOf(m)) == [m]
    ensures StepsFrom([m]) == [StepFrom(m)] && Successes([m]) == [Success(m)]
    ensures forall why :: Skips([m], why) == [Skip(m, why)]
  {
    assert [m][..0] == [] && [m][1..] == [];
    assert Sharing([m], KeyOf(m)) == Sharing([], KeyOf(m)) + [m];
    assert [] + [m] == [m] && Sharing([m], KeyOf(m)) == [m];
    assert Sort(Sooner, [m]) == Insert(Sooner, m, Sort(Sooner, []));
  }

  /** The stages when there is only one modifier. */
  lemma AloneInjected(p: Progress, side: Kind, m: Modifier)
    ensures InjectAll(p, side, KeysOf([m]), [m]) == InjectGroup(p, side, KeyOf(m), [m])
    ensures InjectAll(p, side, KeysOf([]), []) == p
  {
    AloneGrouped(m);
    assert [KeyOf(m)][..0] == [];
  }

  lemma AloneSingle(p: Progress, m: Modifier)
    ensures ApplySingles(p, [m]) == ApplySingle(p, m) && ApplySingles(p, []) == p
  {
    assert [m][..0] == [];
  }

  lemma AloneAppended(p: Progress, phases: seq<string>, m: Modifier)
    ensures AppendAll(p, phases, KeysOf([m]), [m])
         == Progress(AppendStep(p.steps, phases, StepFrom(m)), p.results + [Success(m)])
    ensures AppendAll(p, phases, KeysOf([]), []) == p
  {
    AloneGrouped(m);
    assert [KeyOf(m)][..0] == [] && [StepFrom(m)][..0] == [];
    assert AppendSteps(p.steps, phases, [StepFrom(m)])
        == AppendStep(AppendSteps(p.steps, phases, []), phases, StepFrom(m));
  }

  /** What one accepted modifier makes of steps without results. */
  ghost function Alone(steps: seq<Step>, phases: seq<string>, m: Modifier): Progress {
    var p := Progress(steps, []);
    match KindOf(m)
    case Single => ApplySingle(p, m)
    case AtEnd => Progress(AppendStep(steps, phases, StepFrom(m)), [Success(m)])
    case side => InjectGroup(p, side, KeyOf(m), [m])
  }

  /** Stages without modifiers do nothing. */
  lemma NothingDone(p: Progress, phases: seq<string>)
    ensures ApplySingles(p, []) == p && InjectAll(p, Before, KeysOf([]), []) == p
    ensures InjectAll(p, After, KeysOf([]), []) == p
    ensures AppendAll(p, phases, KeysOf([]), []) == p
  {
  }

  /** What a whole application comes to with one accepted modifier. */
  lemma AloneApplied(env: Available, flow: Flow, m: Modifier)
    requires Screen(env, flow.phases, m).Accepted?
    ensures Apply(env, flow, [m]) == Alone(flow.steps, flow.phases, Screen(env, flow.phases, m).m)
  {
    var x, p := Screen(env, flow.phases, m).m, Progress(flow.steps, []);
    var r := Alone(flow.steps, flow.phases, x);
    AloneAccepted(env, flow.phases, m);
    AloneKinds(x);
    NothingDone(p, flow.phases);
    NothingDone(r, flow.phases);
    AloneStage(p, flow.phases, x, r);
  }

  lemma AloneStage(p: Progress, phases: seq<string>, m: Modifier, r: Progress)
    requires p.results == [] && r == Alone(p.steps, phases, m)
    ensures KindOf(m) == Single ==> ApplySingles(p, [m]) == r
    ensures KindOf(m) == Before ==> InjectAll(p, Before, KeysOf([m]), [m]) == r
    ensures KindOf(m) == After ==> InjectAll(p, After, KeysOf([m]), [m]) == r
    ensures KindOf(m) == AtEnd ==> AppendAll(p, phases, KeysOf([m]), [m]) == r
  {
    AloneSingle(p, m);
    AloneInjected(p, Before, m);
    AloneInjected(p, After, m);
    AloneAppended(p, phases, m);
    assert [] + [Success(m)] == [Success(m)];
  }

  lemma AloneKinds(m: Modifier)
    ensures Only([m], Single) == (if KindOf(m) == Single then [m] else [])
    ensures Only([m], Before) == (if KindOf(m) == Before then [m] else [])
    ensures Only([m], After) == (if KindOf(m) == After then [m] else [])
    ensures Only([m], AtEnd) == (if KindOf(m) == AtEnd then [m] else [])
  {
    AloneOfKind(m, Single);
    AloneOfKind(m, Before);
    AloneOfKind(m, After);
    AloneOfKind(m, AtEnd);
  }

  lemma InjectedAlone(p: Progress, side: Kind, m: Modifier, i: nat)
    requires FoundAt(p.steps, m, i) && !m.action.Append?
    ensures var at := if side == Before then i else i + 1;
            InjectGroup(p, side, KeyOf(m), [m])
            == Progress(p.steps[..at] + [StepFrom(m)] + p.steps[at..], p.results + [Success(m)])
  {
    FoundExactly(p.steps, m, i);
    AloneGrouped(m);
  }

  lemma SingleAlone(p: Progress, m: Modifier, i: nat)
    requires FoundAt(p.steps, m, i)
    ensures m.action == Replace ==>
              ApplySingle(p, m) == Progress(p.steps[..i] + [StepFrom(m)] + p.steps[i + 1..], p.results + [Success(m)])
    ensures m.action == Remove ==>
            ApplySingle(p, m) == Progress(p.steps[..i] + p.steps[i + 1..], p.results + [Success(m)])
  {
    FoundExactly(p.steps, m, i);
    assert p.steps[i := StepFrom(m)] == p.steps[..i] + [StepFrom(m)] + p.steps[i + 1..];
  }

  lemma FoundDoes(s: seq<Step>, phases: seq<string>, m: Modifier, i: nat, r: Progress)
    requires FoundAt(s, m, i) && r == Alone(s, phases, m)
    requires m.action == InjectBefore || m.action == InjectAfter || m.action == Replace || m.action == Remove
    ensures && (m.action == InjectBefore ==> r.steps == s[..i] + [StepFrom(m)] + s[i..])
            && (m.action == InjectAfter ==> r.steps == s[..i + 1] + [StepFrom(m)] + s[i + 1..])
            && (m.action == Replace ==> r.steps == s[..i] + [StepFrom(m)] + s[i + 1..])
            && (m.action == Remove ==> r.steps == s[..i] + s[i + 1..])
            && r.results == [Applied(m.id, m.action, m.target)]
  {
    var p := Progress(s, []);
    SingleAlone(p, m, i);
    if m.action == InjectBefore { InjectedAlone(p, Before, m, i); }
    if m.action == InjectAfter { InjectedAlone(p, After, m, i); }
    assert [] + [Success(m)] == [Success(m)];
  }

  lemma NotFoundDoes(s: seq<Step>, phases: seq<string>, m: Modifier, r: Progress)
    requires m.action != Append && r == Alone(s, phases, m)
    requires m.action.OtherAction? || Locate(s, Target(m)) < 0
    ensures && r.steps == s
            && r.results == [Skipped(m.id, m.action, m.target,
                                     if m.action.OtherAction? then UnexpectedAction else TargetNotFound(Target(m)))]
  {
    AloneGrouped(m);
    assert forall why :: [] + [Skip(m, why)] == [Skip(m, why)];
  }

  /** One modifier whose target is the step at i: inject_before puts its step there, in front of it, inject_after
      behind it, replace puts it in its place, and remove takes it away. */
  lemma FoundAlone(env: Available, flow: Flow, m: Modifier, i: nat)
    requires Eligible(env, flow.phases, m) && m.phase in flow.phases && FoundAt(flow.steps, m, i)
    requires m.action == InjectBefore || m.action == InjectAfter || m.action == Replace || m.action == Remove
    ensures var s, r := flow.steps, Apply(env, flow, [m]);
            && (m.action == InjectBefore ==> r.steps == s[..i] + [StepFrom(m)] + s[i..])
            && (m.action == InjectAfter ==> r.steps == s[..i + 1] + [StepFrom(m)] + s[i + 1..])
            && (m.action == Replace ==> r.steps == s[..i] + [StepFrom(m)] + s[i + 1..])
            && (m.action == Remove ==> r.steps == s[..i] + s[i + 1..])
            && r.results == [Applied(m.id, m.action, m.target)]
  {
    ScreenExactly(env, flow.phases, m);
    AloneApplied(env, flow, m);
    FoundDoes(flow.steps, flow.phases, m, i, Apply(env, flow, [m]));
  }

  /** If its target is not there, or the action is unknown, the steps stay as they are and the result says why. */
  lemma NotFoundAlone(env: Available, flow: Flow, m: Modifier)
    requires Eligible(env, flow.phases, m) && m.phase in flow.phases && m.action != Append
    requires m.action.OtherAction? || forall i: nat :: !FoundAt(flow.steps, m, i)
    ensures var r := Apply(env, flow, [m]);
            && r.steps == flow.steps
            && r.results == [Skipped(m.id, m.action, m.target, if m.action.OtherAction? then UnexpectedAction
                                     else TargetNotFound(if m.target.Some? then m.target.value else ""))]
  {
    ScreenExactly(env, flow.phases, m);
    if Locate(flow.steps, Target(m)) >= 0 { FoundExactly(flow.steps, m, Locate(flow.steps, Target(m))); }
    AloneApplied(env, flow, m);
    NotFoundDoes(flow.steps, flow.phases, m, Apply(env, flow, [m]));
  }

  /** An append goes behind the last step that is not of a later phase; to an unknown phase, as if to the last one. */
  lemma AppendAlone(env: Available, flow: Flow, m: Modifier, i: nat)
    requires Eligible(env, flow.phases, m) && m.action == Append
    requires var phase := if m.phase in flow.phases then m.phase else flow.phases[|flow.phases| - 1];
             EndAt(flow.steps, flow.phases, phase, i)
    ensures var phase := if m.phase in flow.phases then m.phase else flow.phases[|flow.phases| - 1];
            var s, r := flow.steps, Apply(env, flow, [m]);
            && r.steps == s[..i] + [StepFrom(m.(phase := phase))] + s[i..]
            && r.results == [Applied(m.id, m.action, m.target)]
  {
    ScreenExactly(env, flow.phases, m);
    AloneApplied(env, flow, m);
    var x := Screen(env, flow.phases, m).m;
    EndExactly(flow.steps, flow.phases, x.phase, i);
  }

  lemma EndExactly(s: seq<Step>, phases: seq<string>, phase: string, i: nat)
    requires EndAt(s, phases, phase, i)
    ensures EndOfPhase(s, phases, PhaseIndex(phases, phase)) == i
  {
    var j := EndOfPhase(s, phases, PhaseIndex(phases, phase));
    assert j < |s| ==> PhaseIndex(phases, s[j].phase) > PhaseIndex(phases, phase);
    assert i < |s| ==> PhaseIndex(phases, s[i].phase) > PhaseIndex(phases, phase);
  }

  /** A modifier that is not eligible changes nothing. */
  lemma RefusedAlone(env: Available, flow: Flow, m: Modifier)
    requires !Eligible(env, flow.phases, m)
    ensures Apply(env, flow, [m]).steps == flow.steps && |Apply(env, flow, [m]).results| == 1
    ensures Apply(env, flow, [m]).results[0].Skipped? && Apply(env, flow, [m]).results[0].modifier == m.id
  {
    ScreenExactly(env, flow.phases, m);
    AloneAccepted(env, flow.phases, m);
    AloneOfKind(m, Single);
    AloneOfKind(m, Before);
    AloneOfKind(m, After);
    AloneOfKind(m, AtEnd);
  }

  // ------------------------------------------------------------------- in any list

  /** In every result the step of an accepted inject_before stands in front of the step found at its target when its
      group's turn came, that of an inject_after behind it. */
  lemma InjectedStands(env: Available, flow: Flow, ms: seq<Modifier>, m: Modifier) returns (i: nat)
    requires m in Accept(env, flow.phases, ms) && (m.action == InjectBefore || m.action == InjectAfter)
    ensures var side := if m.action == InjectBefore then Before else After;
            var g := Only(Accept(env, flow.phases, ms), side);
            && i < |KeysOf(g)| && KeysOf(g)[i] == Target(m)
            && var s := InjectAll(Start(env, flow, ms, side), side, KeysOf(g)[..i], g).steps;
               var at := Locate(s, Target(m));
               && (at >= 0 && m.action == InjectBefore ==>
                   Subsequence([StepFrom(m), s[at]], Apply(env, flow, ms).steps))
               && (at >= 0 && m.action == InjectAfter ==> Subsequence([s[at], StepFrom(m)], Apply(env, flow, ms).steps))
  {
    var side := if m.action == InjectBefore then Before else After;
    var g := Only(Accept(env, flow.phases, ms), side);
    OnlyIn(Accept(env, flow.phases, ms), side);
    i := KeyPosition(g, m);
    var s := InjectAll(Start(env, flow, ms, side), side, KeysOf(g)[..i], g).steps;
    if Locate(s, Target(m)) >= 0 {
      GroupsStandSorted(env, flow, ms, side, i);
      MemberStands(g, m, s[Locate(s, Target(m))], Apply(env, flow, ms).steps, side);
    }
  }

  lemma KeyPosition(g: seq<Modifier>, m: Modifier) returns (i: nat)
    requires m in g
    ensures i < |KeysOf(g)| && KeysOf(g)[i] == KeyOf(m)
  {
    KeysDistinct(g);
    var k :| 0 <= k < |g| && g[k] == m;
    assert KeyOf(g[k]) == KeyOf(m);
    assert KeyOf(m) in KeysOf(g);
    i :| 0 <= i < |KeysOf(g)| && KeysOf(g)[i] == KeyOf(m);
  }

  lemma SplitBlock(g: seq<Modifier>, m: Modifier) returns (a: seq<Step>, b: seq<Step>)
    requires m in g
    ensures StepsFrom(Group(g, KeyOf(m))) == a + [StepFrom(m)] + b
  {
    var group, block := Group(g, KeyOf(m)), StepsFrom(Group(g, KeyOf(m)));
    GroupIn(g, KeyOf(m));
    var k :| 0 <= k < |group| && group[k] == m;
    assert block[k] == StepFrom(m);
    a, b := block[..k], block[k + 1..];
  }

  /** A member of a group that stands beside a step stands beside it. */
  lemma MemberStands(g: seq<Modifier>, m: Modifier, x: Step, r: seq<Step>, side: Kind)
    requires m in g
    requires var block := StepsFrom(Group(g, KeyOf(m)));
             Subsequence(if side == Before then block + [x] else [x] + block, r)
    ensures Subsequence(if side == Before then [StepFrom(m), x] else [x, StepFrom(m)], r)
  {
    var a, b := SplitBlock(g, m);
    InFront(a, StepFrom(m), b, x);
    Behind(a, StepFrom(m), b, x);
    var block := a + [StepFrom(m)] + b;
    if side == Before {
      SubsequenceTransitive([StepFrom(m), x], block + [x], r);
    } else {
      SubsequenceTransitive([x, StepFrom(m)], [x] + block, r);
    }
  }

  lemma InFront(a: seq<Step>, y: Step, b: seq<Step>, x: Step)
    ensures Subsequence([y, x], a + [y] + b + [x])
  {
    TwoOf(a, y, b, x, []);
    assert a + [y] + b + [x] + [] == a + [y] + b + [x];
  }

  lemma Behind(a: seq<Step>, y: Step, b: seq<Step>, x: Step)
    ensures Subsequence([x, y], [x] + (a + [y] + b))
  {
    TwoOf([], x, a, y, b);
    assert [] + [x] + a + [y] + b == [x] + (a + [y] + b);
  }

  /** Two elements of a list, in their order. */
  lemma {:induction false} TwoOf(a: seq<Step>, x: Step, b: seq<Step>, y: Step, c: seq<Step>)
    ensures Subsequence([x, y], a + [x] + b + [y] + c)
    decreases |a| + |b|
  {
    var q := a + [x] + b + [y] + c;
    if a != [] {
      assert q[1..] == a[1..] + [x] + b + [y] + c;
      TwoOf(a[1..], x, b, y, c);
    } else {
      OneOf(b, y, c);
      assert q[0] == x && q[1..] == b + [y] + c && [x, y][1..] == [y];
    }
  }

  lemma {:induction false} OneOf(b: seq<Step>, y: Step, c: seq<Step>)
    ensures Subsequence([y], b + [y] + c)
    decreases |b|
  {
    var q := b + [y] + c;
    if b != [] {
      assert q[1..] == b[1..] + [y] + c;
      OneOf(b[1..], y, c);
    } else {
      assert q[0] == y && [y][1..] == [];
    }
  }

  /** A group is in the order of priority numbers, then step ids, then modifier ids. */
  lemma GroupSpelledOut(ms: seq<Modifier>, key: string, i: nat, j: nat)
    requires i < j < |Group(ms, key)|
    ensures var x, y := Group(ms, key)[i], Group(ms, key)[j];
            var s, t := StepKey(x), StepKey(y);
            || x.priority < y.priority
            || (x.priority == y.priority && (ComesFirst(s, t) || (s == t && (ComesFirst(x.id, y.id) || x.id == y.id))))
  {
    GroupsAreSorted(ms, key);
    var x, y := Group(ms, key)[i], Group(ms, key)[j];
    assert !Sooner(y, x);
    StrLessConnected(StepKey(x), StepKey(y));
    StrLessConnected(x.id, y.id);
    StrLessExactly(StepKey(x), StepKey(y));
    StrLessExactly(x.id, y.id);
  }
}
