/** What `_sort_steps` promises about its result (flow_loader.py). */
module StepSort {
  import opened Orders
  import opened Precedence
  import opened Flows
  import opened StepOrder
  import opened FlowLoader

  lemma {:induction false} InPhaseMultiplicity(q: seq<Step>, p: string, s: Step)
    ensures multiset(InPhase(q, p))[s] == if s.phase == p then multiset(q)[s] else 0
    decreases q
  {
    if q != [] {
      InPhaseMultiplicity(q[1..], p, s);
      assert q == [q[0]] + q[1..];
    }
  }

  lemma GroupOfSorted(phases: seq<string>, sorted: seq<Step>, p: string)
    requires SortedBy(ByKey(phases), sorted) && DistinctIds(sorted)
    ensures multiset(SortGroup(InPhase(sorted, p))) == multiset(InPhase(sorted, p))
    ensures forall s :: s in SortGroup(InPhase(sorted, p)) ==> s.phase == p
  {
    InPhaseSorted(phases, sorted, p);
    SortGroupClosedForm(InPhase(sorted, p));
    InPhaseIn(sorted, p);
    forall s | s in SortGroup(InPhase(sorted, p)) ensures s.phase == p {
      assert s in multiset(InPhase(sorted, p));
    }
  }

  /** m added up once for every mention of p. */
  function Copies(phases: seq<string>, p: string, m: nat): nat {
    if phases == [] then 0 else Copies(phases[..|phases| - 1], p, m) + if phases[|phases| - 1] == p then m else 0
  }

  lemma {:induction false} CopiesAreTimes(phases: seq<string>, p: string, m: nat)
    ensures Copies(phases, p, m) == Times(phases, p) * m
    decreases |phases|
  {
    if phases != [] {
      CopiesAreTimes(phases[..|phases| - 1], p, m);
    }
  }

  lemma {:induction false} GroupedMultiplicity(all: seq<string>, phases: seq<string>, sorted: seq<Step>, s: Step)
    requires SortedBy(ByKey(all), sorted) && DistinctIds(sorted)
    ensures multiset(Grouped(phases, sorted))[s] == Copies(phases, s.phase, multiset(sorted)[s])
    decreases |phases|
  {
    if phases != [] {
      var n := |phases| - 1;
      GroupedMultiplicity(all, phases[..n], sorted, s);
      LastGroupMultiplicity(all, sorted, phases[n], s);
    }
  }

  lemma LastGroupMultiplicity(all: seq<string>, sorted: seq<Step>, p: string, s: Step)
    requires SortedBy(ByKey(all), sorted) && DistinctIds(sorted)
    ensures multiset(SortGroup(InPhase(sorted, p)))[s] == if s.phase == p then multiset(sorted)[s] else 0
  {
    GroupOfSorted(all, sorted, p);
    InPhaseMultiplicity(sorted, p, s);
  }

  lemma SortedInput(steps: seq<Step>, phases: seq<string>) returns (sorted: seq<Step>)
    requires DistinctIds(steps)
    ensures sorted == Sort(ByKey(phases), steps) && multiset(sorted) == multiset(steps)
    ensures SortedBy(ByKey(phases), sorted) && DistinctIds(sorted)
  {
    sorted := Sort(ByKey(phases), steps);
    SortSorts(ByKey(phases), steps);
    ByKeyIsStrictWeakOrder(phases);
    DistinctIdsPermuted(steps, sorted);
  }

  /** Every step comes out as often as its phase is listed: once for distinct phases, never for an unlisted phase, and
      twice when the phase is repeated. */
  lemma EveryStepPerPhase(steps: seq<Step>, phases: seq<string>, s: Step)
    requires DistinctIds(steps)
    ensures multiset(SortedSteps(steps, phases))[s] == Times(phases, s.phase) * multiset(steps)[s]
  {
    var sorted := SortedInput(steps, phases);
    GroupedMultiplicity(phases, phases, sorted, s);
    CopiesAreTimes(phases, s.phase, multiset(steps)[s]);
  }

  /** So the result rearranges the input exactly when the phase of each step is listed once. */
  lemma PermutationIff(steps: seq<Step>, phases: seq<string>)
    requires DistinctIds(steps)
    ensures multiset(SortedSteps(steps, phases)) == multiset(steps) <==>
            forall s :: s in steps ==> Times(phases, s.phase) == 1
  {
    var r := SortedSteps(steps, phases);
    DistinctFromIds(steps);
    forall s: Step ensures multiset(r)[s] == Times(phases, s.phase) * (if s in steps then 1 else 0) {
      EveryStepPerPhase(steps, phases, s);
      DistinctMultiplicity(steps, s);
    }
    if multiset(r) == multiset(steps) {
      forall s | s in steps ensures Times(phases, s.phase) == 1 { DistinctMultiplicity(steps, s); }
    }
    if forall s :: s in steps ==> Times(phases, s.phase) == 1 {
      forall s ensures multiset(r)[s] == multiset(steps)[s] { DistinctMultiplicity(steps, s); }
    }
  }

  // ------------------------------------------------------------ phases in order

  /** Reading r from left to right never goes back in the phase list. */
  ghost predicate PhasesInOrder(phases: seq<string>, r: seq<Step>) {
    forall i, j :: 0 <= i < j < |r| ==> NotLater(phases, r[i].phase, r[j].phase)
  }

  ghost predicate NotLater(phases: seq<string>, p: string, q: string) {
    exists a, b :: 0 <= a <= b < |phases| && phases[a] == p && phases[b] == q
  }

  lemma {:induction false} GroupedInOrder(all: seq<string>, phases: seq<string>, sorted: seq<Step>)
    requires SortedBy(ByKey(all), sorted) && DistinctIds(sorted)
    ensures PhasesInOrder(phases, Grouped(phases, sorted))
    ensures forall s :: s in Grouped(phases, sorted) ==> s.phase in phases
    decreases |phases|
  {
    if phases != [] {
      var n := |phases| - 1;
      var before, group := Grouped(phases[..n], sorted), SortGroup(InPhase(sorted, phases[n]));
      GroupedInOrder(all, phases[..n], sorted);
      GroupOfSorted(all, sorted, phases[n]);
      var r := before + group;
      forall i, j | 0 <= i < j < |r| ensures NotLater(phases, r[i].phase, r[j].phase) {
        LaterGroup(phases, before, group, i, j);
      }
      forall s | s in r ensures s.phase in phases {
        if s in before { assert s.phase in phases[..n]; }
      }
    }
  }

  lemma LaterGroup(phases: seq<string>, before: seq<Step>, group: seq<Step>, i: nat, j: nat)
    requires phases != [] && i < j < |before + group|
    requires PhasesInOrder(phases[..|phases| - 1], before)
    requires forall s :: s in before ==> s.phase in phases[..|phases| - 1]
    requires forall s :: s in group ==> s.phase == phases[|phases| - 1]
    ensures NotLater(phases, (before + group)[i].phase, (before + group)[j].phase)
  {
  }

  lemma PhaseOrderRespected(steps: seq<Step>, phases: seq<string>)
    requires DistinctIds(steps)
    ensures PhasesInOrder(phases, SortedSteps(steps, phases))
  {
    var sorted := SortedInput(steps, phases);
    GroupedInOrder(phases, phases, sorted);
  }

  // ------------------------------------------------------- order inside a phase

  lemma {:induction false} InPhaseOfUniform(q: seq<Step>, p: string, r: string)
    requires forall s :: s in q ==> s.phase == r
    ensures InPhase(q, p) == if p == r then q else []
    decreases q
  {
    if q != [] {
      assert q[0] in q && forall s :: s in q[1..] ==> s in q;
      InPhaseOfUniform(q[1..], p, r);
    }
  }

  lemma LastGroupInPhase(all: seq<string>, before: seq<Step>, sorted: seq<Step>, phase: string, p: string)
    requires SortedBy(ByKey(all), sorted) && DistinctIds(sorted)
    ensures InPhase(before + SortGroup(InPhase(sorted, phase)), p)
         == InPhase(before, p) + if p == phase then SortGroup(InPhase(sorted, p)) else []
  {
    var group := SortGroup(InPhase(sorted, phase));
    GroupOfSorted(all, sorted, phase);
    InPhaseConcat(before, group, p);
    InPhaseOfUniform(group, p, phase);
  }

  lemma {:induction false} GroupedInPhase(all: seq<string>, phases: seq<string>, sorted: seq<Step>, p: string)
    requires SortedBy(ByKey(all), sorted) && DistinctIds(sorted) && Distinct(phases)
    ensures InPhase(Grouped(phases, sorted), p) == if p in phases then SortGroup(InPhase(sorted, p)) else []
    decreases |phases|
  {
    if phases != [] {
      var n := |phases| - 1;
      GroupedInPhase(all, phases[..n], sorted, p);
      LastGroupInPhase(all, Grouped(phases[..n], sorted), sorted, phases[n], p);
      LastPhase(phases, p);
    }
  }

  lemma LastPhase(phases: seq<string>, p: string)
    requires phases != [] && Distinct(phases)
    ensures var n := |phases| - 1;
            (p in phases <==> p in phases[..n] || p == phases[n]) && phases[n] !in phases[..n] && Distinct(phases[..n])
  {
  }

  lemma GraphIgnoresOrder(a: seq<Step>, b: seq<Step>)
    requires DistinctIds(a) && DistinctIds(b) && forall s :: s in a <==> s in b
    ensures GroupGraph(a) == GroupGraph(b)
  {
    assert StepIds(a) == StepIds(b);
    forall id | id in StepIds(a) ensures StepNamed(a, id) == StepNamed(b, id) {
      SameIdSameStep(a, StepNamed(a, id), StepNamed(b, id));
    }
  }

  /** Inside a listed phase the result is the phase's steps, strictly ordered by (longest chain of same-phase
      dependencies, priority, id) if these have no cycle and by (priority, id) otherwise. */
  lemma PhaseClosedForm(steps: seq<Step>, phases: seq<string>, p: string)
    requires DistinctIds(steps) && Distinct(phases) && p in phases
    ensures var g, r := GroupGraph(InPhase(steps, p)), InPhase(SortedSteps(steps, phases), p);
            && multiset(r) == multiset(InPhase(steps, p))
            && forall i, j :: 0 <= i < j < |r| ==> if Acyclic(g) then Precedes(g, r[i], r[j]) else Base(r[i], r[j])
  {
    var sorted := SortedInput(steps, phases);
    var group := InPhase(sorted, p);
    GroupedInPhase(phases, phases, sorted, p);
    InPhaseSorted(phases, sorted, p);
    SortGroupClosedForm(group);
    SamePhaseGroup(steps, sorted, p);
    if !Acyclic(GroupGraph(group)) {
      forall i, j | 0 <= i < j < |group| ensures Base(group[i], group[j]) { BaseStrict(group, i, j); }
    }
  }

  /** In a phase without cycles every step comes after the same-phase steps it depends on. */
  lemma DependenciesFirst(steps: seq<Step>, phases: seq<string>, p: string, i: nat, j: nat)
    requires DistinctIds(steps) && Distinct(phases) && p in phases && Acyclic(GroupGraph(InPhase(steps, p)))
    requires var g, r := GroupGraph(InPhase(steps, p)), InPhase(SortedSteps(steps, phases), p);
             i < |r| && j < |r| && r[j].id in g && r[i].id in g[r[j].id]
    ensures i < j
  {
    var g, r := GroupGraph(InPhase(steps, p)), InPhase(SortedSteps(steps, phases), p);
    PhaseClosedForm(steps, phases, p);
    PrecedesRespectsDependencies(g, r[i], r[j]);
    if i == j {
      assert WalkBetween(g, [r[i].id, r[i].id], r[i].id, r[i].id);
    }
  }

  lemma SamePhaseGroup(steps: seq<Step>, sorted: seq<Step>, p: string)
    requires DistinctIds(steps) && multiset(sorted) == multiset(steps)
    ensures multiset(InPhase(sorted, p)) == multiset(InPhase(steps, p))
    ensures GroupGraph(InPhase(sorted, p)) == GroupGraph(InPhase(steps, p))
  {
    var a, b := InPhase(sorted, p), InPhase(steps, p);
    forall s ensures multiset(a)[s] == multiset(b)[s] {
      InPhaseMultiplicity(sorted, p, s);
      InPhaseMultiplicity(steps, p, s);
    }
    InPhaseDistinct(steps, p);
    DistinctIdsPermuted(b, a);
    forall s ensures s in a <==> s in b { assert s in multiset(a) <==> s in multiset(b); }
    GraphIgnoresOrder(a, b);
  }

  lemma {:induction false} InPhaseDistinct(q: seq<Step>, p: string)
    requires DistinctIds(q)
    ensures DistinctIds(InPhase(q, p))
    decreases q
  {
    if q != [] {
      var r := InPhase(q[1..], p);
      InPhaseDistinct(q[1..], p);
      InPhaseIn(q[1..], p);
      forall k | 0 <= k < |r| ensures r[k].id != q[0].id {
        assert r[k] in r && r[k] in q[1..];
        var j :| 0 <= j < |q[1..]| && q[1..][j] == r[k];
        assert q[j + 1] == r[k];
      }
    }
  }

  // -------------------------------------------------------------- determinism

  /** The order in which the steps were written has no influence. */
  lemma SortIgnoresInputOrder(steps: seq<Step>, steps': seq<Step>, phases: seq<string>)
    requires DistinctIds(steps) && multiset(steps) == multiset(steps')
    ensures SortedSteps(steps, phases) == SortedSteps(steps', phases)
  {
    ByKeyIsStrictWeakOrder(phases);
    forall x, y | x in steps && y in steps && x != y ensures ByKey(phases)(x, y) || ByKey(phases)(y, x) {
      if x.id == y.id { SameIdSameStep(steps, x, y); }
      StrLessConnected(x.id, y.id);
    }
    SortOfPermutation(ByKey(phases), steps, steps');
  }

  // -------------------------------------------------------- the order, spelled out

  /** Inside a phase without cycles a step that stands before another has a shorter longest chain of same-phase
      dependencies, or an equally long one and the smaller priority number, or the same and the id that comes first. */
  lemma OrderSpelledOut(steps: seq<Step>, phases: seq<string>, p: string, i: nat, j: nat)
    requires DistinctIds(steps) && Distinct(phases) && p in phases
    requires i < j < |InPhase(SortedSteps(steps, phases), p)|
    ensures var g, r := GroupGraph(InPhase(steps, p)), InPhase(SortedSteps(steps, phases), p);
            var x, y := r[i], r[j];
            var first := x.priority < y.priority || (x.priority == y.priority && ComesFirst(x.id, y.id));
            if Acyclic(g)
            then exists a, b :: LongestChain(g, x.id, a) && LongestChain(g, y.id, b) && (a < b || (a == b && first))
            else first
  {
    var r := InPhase(SortedSteps(steps, phases), p);
    PhaseClosedForm(steps, phases, p);
    StrLessExactly(r[i].id, r[j].id);
  }
}
