/** Flow definitions (flow_loader.py): the values that the loader sorts and that modifiers rewrite. */
module Flows {

  datatype Option<T> = None | Some(value: T)

  /** A normalised flow step. `kind` stands for `type`; fields nobody reads here are in `rest`. */
  datatype Step = Step(id: string, phase: string, priority: int, kind: string, dependsOn: Option<seq<string>>,
                       rest: string)

  function StepIds(steps: seq<Step>): set<string> { set s | s in steps :: s.id }

  predicate DistinctIds(steps: seq<Step>) {
    forall i, j :: 0 <= i < j < |steps| ==> steps[i].id != steps[j].id
  }

  function Deps(s: Step): seq<string> {
    if s.dependsOn.Some? then s.dependsOn.value else []
  }

  /** `[s for s in q if s.phase == phase]` */
  function InPhase(q: seq<Step>, phase: string): seq<Step> {
    if q == [] then [] else (if q[0].phase == phase then [q[0]] else []) + InPhase(q[1..], phase)
  }

  /** Steps of q with an id in ids, in the order of q. */
  function Select(q: seq<Step>, ids: set<string>): seq<Step> {
    if q == [] then [] else (if q[0].id in ids then [q[0]] else []) + Select(q[1..], ids)
  }

  function IdsOf(q: seq<Step>): seq<string> {
    seq(|q|, i requires 0 <= i < |q| => q[i].id)
  }
}
