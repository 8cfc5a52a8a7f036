/** Applying modifiers to a flow (flow_modifier.py, `FlowModifierApplier`). */
module FlowModifier {
  import opened Orders
  import opened Flows

  datatype Action = InjectBefore | InjectAfter | Append | Replace | Remove | OtherAction(name: string)

  /** The step dict of a modifier; `None` where the dict has no such key. */
  datatype StepDict = StepDict(id: Option<string>, kind: Option<string>, priority: Option<int>,
                               dependsOn: Option<seq<string>>, rest: string)

  datatype Modifier = Modifier(id: string, phase: string, priority: int, action: Action, target: Option<string>,
                               step: Option<StepDict>, interfaces: seq<string>, capabilities: seq<string>)

  datatype Flow = Flow(id: string, phases: seq<string>, steps: seq<Step>, schedule: Option<string>, metadata: string)

  datatype Reason = RequiresNotSatisfied | PhaseNotFound | TargetNotFound(target: string) | UnexpectedAction

  datatype ApplyResult = Applied(modifier: string, action: Action, target: Option<string>)
                       | Skipped(modifier: string, action: Action, target: Option<string>, reason: Reason)

  function Success(m: Modifier): ApplyResult { Applied(m.id, m.action, m.target) }

  function Skip(m: Modifier, why: Reason): ApplyResult { Skipped(m.id, m.action, m.target, why) }

  /** What the interface registry offers. */
  datatype Available = Available(interfaces: set<string>, capabilities: set<string>)

  // ------------------------------------------------------------------ screening

  predicate Satisfied(env: Available, m: Modifier) {
    (forall i | i in m.interfaces :: i in env.interfaces) && (forall c | c in m.capabilities :: c in env.capabilities)
  }

  datatype Screened = Refused(reason: Reason) | Accepted(m: Modifier)

  /** A modifier is refused, or accepted; an append to an unknown phase moves to the last phase. */
  function Screen(env: Available, phases: seq<string>, m: Modifier): Screened {
    if !Satisfied(env, m) then Refused(RequiresNotSatisfied)
    else if m.phase in phases then Accepted(m)
    else if m.action.Append? && phases != [] then Accepted(m.(phase := phases[|phases| - 1]))
    else Refused(PhaseNotFound)
  }

  function Accept(env: Available, phases: seq<string>, ms: seq<Modifier>): seq<Modifier> {
    if ms == [] then []
    else
      var s := Screen(env, phases, ms[|ms| - 1]);
      Accept(env, phases, ms[..|ms| - 1]) + if s.Accepted? then [s.m] else []
  }

  function Refusals(env: Available, phases: seq<string>, ms: seq<Modifier>): seq<ApplyResult> {
    if ms == [] then []
    else
      var s := Screen(env, phases, ms[|ms| - 1]);
      Refusals(env, phases, ms[..|ms| - 1]) + if s.Refused? then [Skip(ms[|ms| - 1], s.reason)] else []
  }

  // ------------------------------------------------------------------- grouping

  datatype Kind = Before | After | AtEnd | Single

  function KindOf(m: Modifier): Kind {
    match m.action
    case InjectBefore => Before
    case InjectAfter => After
    case Append => AtEnd
    case _ => Single
  }

  function Target(m: Modifier): string { if m.target.Some? then m.target.value else "" }

  /** Injections are grouped by target step, appends by phase. */
  function KeyOf(m: Modifier): string { if m.action.Append? then m.phase else Target(m) }

  function Only(ms: seq<Modifier>, k: Kind): seq<Modifier> {
    if ms == [] then []
    else Only(ms[..|ms| - 1], k) + if KindOf(ms[|ms| - 1]) == k then [ms[|ms| - 1]] else []
  }

  function Sharing(ms: seq<Modifier>, key: string): seq<Modifier> {
    if ms == [] then []
    else Sharing(ms[..|ms| - 1], key) + if KeyOf(ms[|ms| - 1]) == key then [ms[|ms| - 1]] else []
  }

  /** Group keys in the order in which they are first seen, as a Python dict keeps them. */
  function KeysOf(ms: seq<Modifier>): seq<string> {
    if ms == [] then []
    else
      var before, k := KeysOf(ms[..|ms| - 1]), KeyOf(ms[|ms| - 1]);
      if k in before then before else before + [k]
  }

  function StepKey(m: Modifier): string {
    if m.step.Some? && m.step.value.id.Some? then m.step.value.id.value else ""
  }

  /** The sort key (priority, step id, modifier id). */
  predicate Sooner(a: Modifier, b: Modifier) {
    a.priority < b.priority ||
    (a.priority == b.priority && (StrLess(StepKey(a), StepKey(b)) || (StepKey(a) == StepKey(b) && StrLess(a.id, b.id))))
  }

  function Group(ms: seq<Modifier>, key: string): seq<Modifier> { Sort(Sooner, Sharing(ms, key)) }

  // ------------------------------------------------------------------- building

  /** `_step_from_dict` */
  function StepFrom(m: Modifier): Step {
    match m.step
    case None => Step("_modifier_" + m.id, m.phase, 100, "handler", None, "")
    case Some(d) => Step(if d.id.Some? then d.id.value else "_modifier_" + m.id, m.phase,
                         if d.priority.Some? then d.priority.value else 100,
                         if d.kind.Some? then d.kind.value else "handler", d.dependsOn, d.rest)
  }

  function StepsFrom(ms: seq<Modifier>): seq<Step> { seq(|ms|, i requires 0 <= i < |ms| => StepFrom(ms[i])) }

  function Successes(ms: seq<Modifier>): seq<ApplyResult> { seq(|ms|, i requires 0 <= i < |ms| => Success(ms[i])) }

  function Skips(ms: seq<Modifier>, why: Reason): seq<ApplyResult> {
    seq(|ms|, i requires 0 <= i < |ms| => Skip(ms[i], why))
  }

  // ------------------------------------------------------------------- locating

  const FIRST := "__first__"
  const LAST := "__last__"

  /** `_find_step_index`: the first step with that id, or -1. */
  function Find(steps: seq<Step>, id: string): (i: int)
    ensures -1 <= i < |steps|
    ensures i >= 0 ==> steps[i].id == id
    ensures forall k :: 0 <= k < |steps| && (i < 0 || k < i) ==> steps[k].id != id
  {
    if steps == [] then -1
    else if steps[0].id == id then 0
    else var i := Find(steps[1..], id);
      assert forall k :: 0 < k < |steps| ==> steps[k] == steps[1..][k - 1];
      if i < 0 then -1 else i + 1
  }

  function Locate(steps: seq<Step>, target: string): (i: int)
    ensures -1 <= i < |steps|
  {
    if target == FIRST then (if steps == [] then -1 else 0)
    else if target == LAST then |steps| - 1
    else Find(steps, target)
  }

  method FindStepIndex(steps: seq<Step>, id: string) returns (r: int)
    ensures r == Find(steps, id)
  {
    for i := 0 to |steps|
      invariant forall k :: 0 <= k < i ==> steps[k].id != id
    {
      if steps[i].id == id { return i; }
    }
    r := -1;
  }

  method LocateTarget(steps: seq<Step>, target: string) returns (r: int)
    ensures r == Locate(steps, target)
  {
    if target == FIRST {
      r := if steps != [] then 0 else -1;
    } else if target == LAST {
      r := if steps != [] then |steps| - 1 else -1;
    } else {
      r := FindStepIndex(steps, target);
    }
  }

  // ------------------------------------------------------------------ rewriting

  datatype Progress = Progress(steps: seq<Step>, results: seq<ApplyResult>)

  /** `_apply_single_modifier`: replace and remove, in list order. */
  function ApplySingle(p: Progress, m: Modifier): Progress {
    if !m.action.Replace? && !m.action.Remove? then Progress(p.steps, p.results + [Skip(m, UnexpectedAction)])
    else
      var i := Locate(p.steps, Target(m));
      if i < 0 then Progress(p.steps, p.results + [Skip(m, TargetNotFound(Target(m)))])
      else Progress(if m.action.Replace? then p.steps[i := StepFrom(m)] else p.steps[..i] + p.steps[i + 1..],
                    p.results + [Success(m)])
  }

  function ApplySingles(p: Progress, ms: seq<Modifier>): Progress {
    if ms == [] then p else ApplySingle(ApplySingles(p, ms[..|ms| - 1]), ms[|ms| - 1])
  }

  /** A whole sorted group goes, in order, right before or right after the step its key names. */
  function InjectGroup(p: Progress, side: Kind, key: string, group: seq<Modifier>): Progress {
    var i := Locate(p.steps, key);
    if i < 0 then Progress(p.steps, p.results + Skips(group, TargetNotFound(key)))
    else
      var at := if side == Before then i else i + 1;
      Progress(p.steps[..at] + StepsFrom(group) + p.steps[at..], p.results + Successes(group))
  }

  function InjectAll(p: Progress, side: Kind, keys: seq<string>, ms: seq<Modifier>): Progress {
    if keys == [] then p
    else
      var k := keys[|keys| - 1];
      InjectGroup(InjectAll(p, side, keys[..|keys| - 1], ms), side, k, Group(ms, k))
  }

  /** `phases.index(phase)`, or the last position for an unknown phase. */
  function PhaseIndex(phases: seq<string>, phase: string): int {
    if phase in phases then FirstIndex(phases, phase) else |phases| - 1
  }

  function FirstIndex(phases: seq<string>, phase: string): (i: nat)
    requires phase in phases
    ensures i < |phases| && phases[i] == phase && phase !in phases[..i]
  {
    if phases[0] == phase then 0 else
      assert phase in phases[1..];
      var i := FirstIndex(phases[1..], phase);
      assert phases[..i + 1] == [phases[0]] + phases[1..][..i];
      i + 1
  }

  /** The position of the first step of a later phase, or the end. */
  function EndOfPhase(steps: seq<Step>, phases: seq<string>, rank: int): (i: nat)
    ensures i <= |steps|
    ensures i < |steps| ==> PhaseIndex(phases, steps[i].phase) > rank
    ensures forall k :: 0 <= k < i ==> PhaseIndex(phases, steps[k].phase) <= rank
  {
    if steps == [] || PhaseIndex(phases, steps[0].phase) > rank then 0
    else
      assert forall k :: 0 < k < |steps| ==> steps[k] == steps[1..][k - 1];
      1 + EndOfPhase(steps[1..], phases, rank)
  }

  /** `_action_append` */
  function AppendStep(steps: seq<Step>, phases: seq<string>, s: Step): seq<Step> {
    var at := EndOfPhase(steps, phases, PhaseIndex(phases, s.phase));
    steps[..at] + [s] + steps[at..]
  }

  function AppendSteps(steps: seq<Step>, phases: seq<string>, ss: seq<Step>): seq<Step> {
    if ss == [] then steps else AppendStep(AppendSteps(steps, phases, ss[..|ss| - 1]), phases, ss[|ss| - 1])
  }

  function AppendAll(p: Progress, phases: seq<string>, keys: seq<string>, ms: seq<Modifier>): Progress {
    if keys == [] then p
    else
      var q, g := AppendAll(p, phases, keys[..|keys| - 1], ms), Group(ms, keys[|keys| - 1]);
      Progress(AppendSteps(q.steps, phases, StepsFrom(g)), q.results + Successes(g))
  }

  /** The whole of `apply_modifiers`: replace and remove first, then the injections before a target, then those after,
      then the appends; nothing is sorted again. */
  function Apply(env: Available, flow: Flow, ms: seq<Modifier>): Progress {
    var active := Accept(env, flow.phases, ms);
    var p0 := Progress(flow.steps, Refusals(env, flow.phases, ms));
    var p1 := ApplySingles(p0, Only(active, Single));
    var p2 := InjectAll(p1, Before, KeysOf(Only(active, Before)), Only(active, Before));
    var p3 := InjectAll(p2, After, KeysOf(Only(active, After)), Only(active, After));
    AppendAll(p3, flow.phases, KeysOf(Only(active, AtEnd)), Only(active, AtEnd))
  }

  // ------------------------------------------------------------ the applier

  /** An insertion-ordered dict of groups. */
  datatype Groups = Groups(keys: seq<string>, at: map<string, seq<Modifier>>)

  ghost predicate Collects(g: Groups, ms: seq<Modifier>) {
    && g.keys == KeysOf(ms) && g.at.Keys == Elems(g.keys)
    && forall k :: k in g.at ==> g.at[k] == Sharing(ms, k)
  }

  lemma {:induction false} NotSharing(ms: seq<Modifier>, k: string)
    requires k !in KeysOf(ms)
    ensures Sharing(ms, k) == []
    decreases |ms|
  {
    if ms != [] {
      NotSharing(ms[..|ms| - 1], k);
    }
  }

  /** `groups.setdefault(key, []).append(modifier)` */
  method AddTo(g: Groups, ghost ms: seq<Modifier>, m: Modifier) returns (g': Groups)
    requires Collects(g, ms)
    ensures Collects(g', ms + [m])
  {
    var k := KeyOf(m);
    assert (ms + [m])[..|ms|] == ms;
    if k in g.at {
      g' := Groups(g.keys, g.at[k := g.at[k] + [m]]);
    } else {
      assert k !in Elems(g.keys);
      NotSharing(ms, k);
      g' := Groups(g.keys + [k], g.at[k := [m]]);
    }
  }

  /** Where the accepted modifiers are filed. */
  ghost predicate Filed(active: seq<Modifier>, before: Groups, after: Groups, atEnd: Groups, others: seq<Modifier>) {
    && Collects(before, Only(active, Before)) && Collects(after, Only(active, After))
    && Collects(atEnd, Only(active, AtEnd))
    && others == Only(active, Single)
  }

  lemma OnlyAppend(ms: seq<Modifier>, m: Modifier, k: Kind)
    ensures Only(ms + [m], k) == if KindOf(m) == k then Only(ms, k) + [m] else Only(ms, k)
  {
  }

  lemma ScreenNext(env: Available, phases: seq<string>, seen: seq<Modifier>, m: Modifier)
    ensures var s := Screen(env, phases, m);
            && Accept(env, phases, seen + [m])
                == (if s.Accepted? then Accept(env, phases, seen) + [s.m] else Accept(env, phases, seen))
            && Refusals(env, phases, seen + [m]) ==
               if s.Refused? then Refusals(env, phases, seen) + [Skip(m, s.reason)] else Refusals(env, phases, seen)
  {
  }

  /** The checks at the top of the first loop. */
  method ScreenModifier(env: Available, phases: seq<string>, m: Modifier) returns (s: Screened)
    ensures s == Screen(env, phases, m)
  {
    if !Satisfied(env, m) {
      return Refused(RequiresNotSatisfied);
    }
    if m.phase !in phases {
      if m.action.Append? && phases != [] {
        return Accepted(m.(phase := phases[|phases| - 1]));
      }
      return Refused(PhaseNotFound);
    }
    s := Accepted(m);
  }

  method File(ghost active: seq<Modifier>, m: Modifier, before: Groups, after: Groups, atEnd: Groups,
              others: seq<Modifier>)
    returns (before': Groups, after': Groups, atEnd': Groups, others': seq<Modifier>)
    requires Filed(active, before, after, atEnd, others)
    ensures Filed(active + [m], before', after', atEnd', others')
  {
    before', after', atEnd', others' := before, after, atEnd, others;
    OnlyAppend(active, m, Before);
    OnlyAppend(active, m, After);
    OnlyAppend(active, m, AtEnd);
    OnlyAppend(active, m, Single);
    match m.action {
      case InjectBefore => before' := AddTo(before, Only(active, Before), m);
      case InjectAfter => after' := AddTo(after, Only(active, After), m);
      case Append => atEnd' := AddTo(atEnd, Only(active, AtEnd), m);
      case _ => others' := others + [m];
    }
  }

  method Classify(env: Available, phases: seq<string>, ms: seq<Modifier>)
    returns (before: Groups, after: Groups, atEnd: Groups, others: seq<Modifier>, results: seq<ApplyResult>)
    ensures Filed(Accept(env, phases, ms), before, after, atEnd, others) && results == Refusals(env, phases, ms)
  {
    before, after, atEnd := Groups([], map[]), Groups([], map[]), Groups([], map[]);
    others, results := [], [];
    for i := 0 to |ms|
      invariant Filed(Accept(env, phases, ms[..i]), before, after, atEnd, others)
      invariant results == Refusals(env, phases, ms[..i])
    {
      var s := ScreenModifier(env, phases, ms[i]);
      ScreenNext(env, phases, ms[..i], ms[i]);
      TakeNext(ms, i);
      if s.Refused? {
        results := results + [Skip(ms[i], s.reason)];
      } else {
        before, after, atEnd, others := File(Accept(env, phases, ms[..i]), s.m, before, after, atEnd, others);
      }
    }
    TakeAll(ms);
  }

  method ApplySingleModifier(steps: seq<Step>, m: Modifier) returns (steps': seq<Step>, r: ApplyResult)
    ensures ApplySingle(Progress(steps, []), m) == Progress(steps', [r])
  {
    steps' := steps;
    if m.action.Replace? || m.action.Remove? {
      var i := LocateTarget(steps, Target(m));
      if i < 0 { return steps, Skip(m, TargetNotFound(Target(m))); }
      steps' := if m.action.Replace? then steps[i := StepFrom(m)] else steps[..i] + steps[i + 1..];
      r := Success(m);
    } else {
      r := Skip(m, UnexpectedAction);
    }
  }

  lemma SingleFrom(p: Progress, m: Modifier)
    ensures var q := ApplySingle(Progress(p.steps, []), m);
            ApplySingle(p, m) == Progress(q.steps, p.results + q.results)
  {
  }

  method ApplyOthers(steps0: seq<Step>, results0: seq<ApplyResult>, others: seq<Modifier>)
    returns (steps: seq<Step>, results: seq<ApplyResult>)
    ensures Progress(steps, results) == ApplySingles(Progress(steps0, results0), others)
  {
    steps, results := steps0, results0;
    for i := 0 to |others|
      invariant Progress(steps, results) == ApplySingles(Progress(steps0, results0), others[..i])
    {
      assert others[..i + 1][..i] == others[..i];
      SingleFrom(Progress(steps, results), others[i]);
      var r;
      steps, r := ApplySingleModifier(steps, others[i]);
      results := results + [r];
    }
    TakeAll(others);
  }

  /** Inserting the steps of a group one by one at consecutive positions. */
  method InsertGroup(steps0: seq<Step>, at: nat, group: seq<Modifier>)
      returns (steps: seq<Step>, results: seq<ApplyResult>)
    requires at <= |steps0|
    ensures steps == steps0[..at] + StepsFrom(group) + steps0[at..] && results == Successes(group)
  {
    steps, results := steps0, [];
    for i := 0 to |group|
      invariant steps == steps0[..at] + StepsFrom(group)[..i] + steps0[at..] && results == Successes(group)[..i]
    {
      TakeNext(StepsFrom(group), i);
      InsertNext(steps0[..at], StepsFrom(group)[..i], steps0[at..], StepFrom(group[i]));
      steps := steps[..at + i] + [StepFrom(group[i])] + steps[at + i..];
      results := results + [Success(group[i])];
    }
    TakeAll(StepsFrom(group));
  }

  lemma InsertNext(a: seq<Step>, b: seq<Step>, c: seq<Step>, s: Step)
    ensures var q := a + b + c; var n := |a| + |b|; q[..n] + [s] + q[n..] == a + (b + [s]) + c
  {
  }

  lemma InjectNext(p: Progress, side: Kind, keys: seq<string>, i: nat, ms: seq<Modifier>)
    requires i < |keys|
    ensures InjectAll(p, side, keys[..i + 1], ms)
            == InjectGroup(InjectAll(p, side, keys[..i], ms), side, keys[i], Group(ms, keys[i]))
  {
    assert keys[..i + 1][..i] == keys[..i];
  }

  /** The steps of one group, next to their target. */
  method InjectOne(steps0: seq<Step>, results0: seq<ApplyResult>, side: Kind, key: string, group: seq<Modifier>)
    returns (steps: seq<Step>, results: seq<ApplyResult>)
    ensures Progress(steps, results) == InjectGroup(Progress(steps0, results0), side, key, group)
  {
    var index := LocateTarget(steps0, key);
    if index < 0 {
      return steps0, results0 + Skips(group, TargetNotFound(key));
    }
    var rs;
    steps, rs := InsertGroup(steps0, if side == Before then index else index + 1, group);
    results := results0 + rs;
  }

  method Inject(steps0: seq<Step>, results0: seq<ApplyResult>, side: Kind, g: Groups, ghost ms: seq<Modifier>)
    returns (steps: seq<Step>, results: seq<ApplyResult>)
    requires Collects(g, ms)
    ensures Progress(steps, results) == InjectAll(Progress(steps0, results0), side, KeysOf(ms), ms)
  {
    steps, results := steps0, results0;
    for i := 0 to |g.keys|
      invariant Progress(steps, results) == InjectAll(Progress(steps0, results0), side, g.keys[..i], ms)
    {
      InjectNext(Progress(steps0, results0), side, g.keys, i, ms);
      assert g.keys[i] in Elems(g.keys);
      steps, results := InjectOne(steps, results, side, g.keys[i], Sort(Sooner, g.at[g.keys[i]]));
    }
    TakeAll(g.keys);
  }

  method ActionAppend(steps: seq<Step>, phases: seq<string>, s: Step) returns (steps': seq<Step>)
    ensures steps' == AppendStep(steps, phases, s)
  {
    var at := |steps|;
    var rank := PhaseIndex(phases, s.phase);
    for i := 0 to |steps|
      invariant at == |steps| && forall k :: 0 <= k < i ==> PhaseIndex(phases, steps[k].phase) <= rank
    {
      if PhaseIndex(phases, steps[i].phase) > rank {
        at := i;
        break;
      }
    }
    steps' := steps[..at] + [s] + steps[at..];
  }

  lemma AppendNext(p: Progress, phases: seq<string>, keys: seq<string>, i: nat, ms: seq<Modifier>)
    requires i < |keys|
    ensures var q, g := AppendAll(p, phases, keys[..i], ms), Group(ms, keys[i]);
            AppendAll(p, phases, keys[..i + 1], ms)
                == Progress(AppendSteps(q.steps, phases, StepsFrom(g)), q.results + Successes(g))
  {
    assert keys[..i + 1][..i] == keys[..i];
  }

  method AppendGroups(steps0: seq<Step>, results0: seq<ApplyResult>, phases: seq<string>, g: Groups,
                      ghost ms: seq<Modifier>)
    returns (steps: seq<Step>, results: seq<ApplyResult>)
    requires Collects(g, ms)
    ensures Progress(steps, results) == AppendAll(Progress(steps0, results0), phases, KeysOf(ms), ms)
  {
    steps, results := steps0, results0;
    for i := 0 to |g.keys|
      invariant Progress(steps, results) == AppendAll(Progress(steps0, results0), phases, g.keys[..i], ms)
    {
      AppendNext(Progress(steps0, results0), phases, g.keys, i, ms);
      assert g.keys[i] in Elems(g.keys);
      var group := Sort(Sooner, g.at[g.keys[i]]);
      steps := AppendGroup(steps, phases, group);
      results := results + Successes(group);
    }
    TakeAll(g.keys);
  }

  method AppendGroup(steps0: seq<Step>, phases: seq<string>, group: seq<Modifier>) returns (steps: seq<Step>)
    ensures steps == AppendSteps(steps0, phases, StepsFrom(group))
  {
    steps := steps0;
    ghost var ss := StepsFrom(group);
    for j := 0 to |group|
      invariant steps == AppendSteps(steps0, phases, ss[..j])
    {
      assert ss[..j + 1][..j] == ss[..j];
      steps := ActionAppend(steps, phases, StepFrom(group[j]));
    }
    TakeAll(ss);
  }

  class FlowModifierApplier {
    var available: Available
    const dryRun: bool

    constructor (dryRun: bool)
      ensures this.dryRun == dryRun && available == Available({}, {})
    {
      this.dryRun := dryRun;
      available := Available({}, {});
    }

    /** What `_refresh_available` reads from the interface registry. */
    method SetAvailable(env: Available)
      modifies this
      ensures available == env
    {
      available := env;
    }

    /** The new definition takes everything over but the schedule; a dry run returns the old one. */
    method ApplyModifiers(flow: Flow, ms: seq<Modifier>) returns (flow': Flow, results: seq<ApplyResult>)
      ensures results == Apply(available, flow, ms).results
      ensures flow' == if dryRun then flow else flow.(steps := Apply(available, flow, ms).steps, schedule := None)
    {
      ghost var active := Accept(available, flow.phases, ms);
      var before, after, atEnd, others;
      before, after, atEnd, others, results := Classify(available, flow.phases, ms);
      var newSteps := flow.steps;
      newSteps, results := ApplyOthers(newSteps, results, others);
      newSteps, results := Inject(newSteps, results, Before, before, Only(active, Before));
      newSteps, results := Inject(newSteps, results, After, after, Only(active, After));
      newSteps, results := AppendGroups(newSteps, results, flow.phases, atEnd, Only(active, AtEnd));
      if dryRun {
        return flow, results;
      }
      flow' := flow.(steps := newSteps, schedule := None);
    }
  }
}
