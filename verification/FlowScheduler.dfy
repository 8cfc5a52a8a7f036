/** The flow scheduler as a protocol of lock-sized steps (flow_scheduler.py).

    Any number of tick threads and worker jobs may exist; `start` and `stop` are split into their single
    writes, which may interleave freely with everything else and with each other. */
module FlowScheduler {

  type FlowId = string

  /** Where a thread inside `_tick` stands. */
  datatype Tick =
    | Waiting                                         // the timer has not fired yet
    | Scanning(todo: seq<FlowId>)                     // the entries of the snapshot still to look at
    | Evaluating(flow: FlowId, todo: seq<FlowId>)     // seen as not running, about to evaluate should_run
    | Due(flow: FlowId, todo: seq<FlowId>)            // should_run said yes, about to take the lock
    | Claimed(flow: FlowId, todo: seq<FlowId>)        // added to _running_flows, about to submit
    | Ended                                           // returned, or killed by an exception

  datatype Job = Queued(flow: FlowId) | Executing(flow: FlowId)

  datatype State = State(
    entries: set<FlowId>,
    running: set<FlowId>,
    stopped: bool,
    executor: int,               // the current executor, -1 for None
    shut: set<int>,              // executors that have been shut down
    ticks: map<nat, Tick>,
    jobs: map<nat, Job>)

  const INIT := State({}, {}, true, -1, {}, map[], map[])

  datatype Action =
    | Register(flow: FlowId)
    | Unregister(flow: FlowId)
    | SetExecutor(x: int)                 // start: a fresh pool; stop: None
    | ShutDown(x: int)                    // stop: the pool refuses submissions from now on
    | SetStopped(b: bool)
    | Spawn(t: nat)                       // a timer is started
    | Cancel(t: nat)                      // a timer that has not fired is cancelled
    | Fire(t: nat, snapshot: seq<FlowId>) // the timer fires; the entries are copied under the lock
    | Look(t: nat)                        // take the next entry, unless it is running or the scheduler stopped
    | Decide(t: nat, due: bool)           // should_run
    | Claim(t: nat)                       // the second check and the claim, under the lock
    | Submit(t: nat, j: nat)              // hand the claimed flow to the executor, if there is one
    | Crash(t: nat)                       // the executor vanished between the test and the call
    | Reschedule(t: nat, next: nat)       // the end of the tick: a new timer unless stopped
    | Begin(j: nat)
    | Finish(j: nat)                      // the finally block: drop the flow from _running_flows

  /** Which actions can happen. */
  predicate Enabled(s: State, a: Action) {
    match a
    case Spawn(t) => t !in s.ticks
    case Cancel(t) => t in s.ticks && s.ticks[t].Waiting?
    case Fire(t, q) => t in s.ticks && s.ticks[t].Waiting? && forall f | f in q :: f in s.entries
    case Look(t) => t in s.ticks && s.ticks[t].Scanning? && s.ticks[t].todo != []
    case Decide(t, _) => t in s.ticks && s.ticks[t].Evaluating?
    case Claim(t) => t in s.ticks && s.ticks[t].Due?
    case Submit(t, j) => t in s.ticks && s.ticks[t].Claimed? && j !in s.jobs
    case Crash(t) => t in s.ticks && s.ticks[t].Claimed?
    case Reschedule(t, n) => t in s.ticks && s.ticks[t].Scanning? && s.ticks[t].todo == [] && n !in s.ticks
    case Begin(j) => j in s.jobs && s.jobs[j].Queued?
    case Finish(j) => j in s.jobs && s.jobs[j].Executing?
    case _ => true
  }

  function Next(s: State, a: Action): State
    requires Enabled(s, a)
  {
    match a
    case Register(f) => s.(entries := s.entries + {f})
    case Unregister(f) => s.(entries := s.entries - {f})
    case SetExecutor(x) => s.(executor := x)
    case ShutDown(x) => s.(shut := s.shut + {x})
    case SetStopped(b) => s.(stopped := b)
    case Spawn(t) => s.(ticks := s.ticks[t := Waiting])
    case Cancel(t) => s.(ticks := s.ticks[t := Ended])
    case Fire(t, q) => s.(ticks := s.ticks[t := if s.stopped then Ended else Scanning(q)])
    case Look(t) =>
      var f, rest := s.ticks[t].todo[0], s.ticks[t].todo[1..];
      s.(ticks := s.ticks[t := if s.stopped then Scanning([]) else if f in s.running then Scanning(rest)
          else Evaluating(f, rest)])
    case Decide(t, due) =>
      var f, rest := s.ticks[t].flow, s.ticks[t].todo;
      s.(ticks := s.ticks[t := if due then Due(f, rest) else Scanning(rest)])
    case Claim(t) =>
      var f, rest := s.ticks[t].flow, s.ticks[t].todo;
      if f in s.running then s.(ticks := s.ticks[t := Scanning(rest)])
      else s.(running := s.running + {f}, ticks := s.ticks[t := Claimed(f, rest)])
    case Submit(t, j) =>
      var f, rest := s.ticks[t].flow, s.ticks[t].todo;
      if s.executor == -1 then s.(ticks := s.ticks[t := Scanning(rest)])
      else if s.executor in s.shut then s.(ticks := s.ticks[t := Ended])
      else s.(ticks := s.ticks[t := Scanning(rest)], jobs := s.jobs[j := Queued(f)])
    case Crash(t) => s.(ticks := s.ticks[t := Ended])
    case Reschedule(t, n) =>
      if s.stopped then s.(ticks := s.ticks[t := Ended]) else s.(ticks := s.ticks[t := Ended][n := Waiting])
    case Begin(j) => s.(jobs := s.jobs[j := Executing(s.jobs[j].flow)])
    case Finish(j) => s.(running := s.running - {s.jobs[j].flow}, jobs := s.jobs - {j})
  }

  /** The states of a run, for a sequence of actions each of which was possible. */
  ghost predicate Run(s: State, acts: seq<Action>, t: State)
    decreases |acts|
  {
    if acts == [] then s == t else Enabled(s, acts[0]) && Run(Next(s, acts[0]), acts[1..], t)
  }

  // --------------------------------------------------------------------- safety

  /** Whoever is responsible for a flow at the moment. */
  datatype Holder = ByTick(t: nat) | ByJob(j: nat)

  ghost predicate Holds(s: State, h: Holder, f: FlowId) {
    match h
    case ByTick(t) => t in s.ticks && s.ticks[t].Claimed? && s.ticks[t].flow == f
    case ByJob(j) => j in s.jobs && s.jobs[j].flow == f
  }

  /** No flow is claimed, queued or executing twice, and one that is, is marked as running. */
  ghost predicate Safe(s: State) {
    && (forall h, f :: Holds(s, h, f) ==> f in s.running)
    && (forall h, h', f :: Holds(s, h, f) && Holds(s, h', f) ==> h == h')
  }

  /** What one action can do to the holders of a flow. */
  lemma HoldersChange(s: State, a: Action, h: Holder, f: FlowId)
    requires Enabled(s, a) && Holds(Next(s, a), h, f)
    ensures || Holds(s, h, f)
            || (a.Claim? && h == ByTick(a.t) && f !in s.running)
            || (a.Submit? && h == ByJob(a.j) && Holds(s, ByTick(a.t), f) && !Holds(Next(s, a), ByTick(a.t), f))
  {
  }

  lemma SafeStep(s: State, a: Action)
    requires Safe(s) && Enabled(s, a)
    ensures Safe(Next(s, a))
  {
    var s' := Next(s, a);
    forall h, f | Holds(s', h, f) ensures f in s'.running {
      HoldersChange(s, a, h, f);
      if a.Finish? && s.jobs[a.j].flow == f { assert Holds(s, ByJob(a.j), f); }
    }
    forall h, h', f | Holds(s', h, f) && Holds(s', h', f) ensures h == h' {
      HoldersChange(s, a, h, f);
      HoldersChange(s, a, h', f);
    }
  }

  /** In every interleaving each flow has at most one claimed, submitted or executing job, and is then marked as
      running. */
  lemma {:induction false} AlwaysSafe(s: State, acts: seq<Action>, t: State)
    requires Safe(s) && Run(s, acts, t)
    ensures Safe(t)
    decreases |acts|
  {
    if acts != [] {
      SafeStep(s, acts[0]);
      AlwaysSafe(Next(s, acts[0]), acts[1..], t);
    }
  }

  lemma SafeFromInit(acts: seq<Action>, t: State)
    requires Run(INIT, acts, t)
    ensures Safe(t)
  {
    AlwaysSafe(INIT, acts, t);
  }

  // ------------------------------------------------------- what is looked at, and when

  /** The flow a tick thread deals with at the moment or will look at. */
  ghost predicate Concerns(tick: Tick, f: FlowId) {
    match tick
    case Waiting => false
    case Scanning(todo) => f in todo
    case Evaluating(g, todo) => f == g || f in todo
    case Due(g, todo) => f == g || f in todo
    case Claimed(g, todo) => f == g || f in todo
    case Ended => false
  }

  /** Registering adds a flow to the entries, unregistering takes it out, and nothing else changes them. */
  lemma EntriesExactly(s: State, a: Action, f: FlowId)
    requires Enabled(s, a)
    ensures f in Next(s, a).entries <==> a == Register(f) || (f in s.entries && a != Unregister(f))
  {
  }

  lemma SnapshotStep(s: State, a: Action, f: FlowId, t: nat)
    requires Enabled(s, a) && f !in s.entries && t in Next(s, a).ticks && Concerns(Next(s, a).ticks[t], f)
    ensures t in s.ticks && Concerns(s.ticks[t], f)
  {
  }

  /** Once it is unregistered, and until it is registered again, a flow stays out of the entries, no timer that fires
      takes it up, and no thread deals with it but those that had it in their snapshot already. */
  lemma {:induction false} UnregisteredStaysOut(s: State, acts: seq<Action>, u: State, f: FlowId)
    requires f !in s.entries && Run(s, acts, u) && forall i :: 0 <= i < |acts| ==> acts[i] != Register(f)
    ensures f !in u.entries
    ensures forall t :: t in u.ticks && Concerns(u.ticks[t], f) ==> t in s.ticks && Concerns(s.ticks[t], f)
    ensures forall t, q :: Enabled(u, Fire(t, q)) ==> f !in q
    decreases |acts|
  {
    if acts != [] {
      var next := Next(s, acts[0]);
      assert acts[0] != Register(f);
      UnregisteredStaysOut(next, acts[1..], u, f);
      forall t | t in u.ticks && Concerns(u.ticks[t], f) ensures t in s.ticks && Concerns(s.ticks[t], f) {
        SnapshotStep(s, acts[0], f, t);
      }
    }
  }

  /** On its way to be run. */
  ghost predicate Busy(tick: Tick) { tick.Evaluating? || tick.Due? || tick.Claimed? }

  /** While the scheduler is stopped no thread takes up another flow: whoever is on the way with one was so before, and
      no timer starts or fires into a scan. */
  lemma StoppedTakesUpNothing(s: State, a: Action, t: nat)
    requires Enabled(s, a) && s.stopped && t in Next(s, a).ticks
    ensures Busy(Next(s, a).ticks[t]) ==>
              t in s.ticks && Busy(s.ticks[t]) && Next(s, a).ticks[t].flow == s.ticks[t].flow
    ensures Next(s, a).ticks[t].Waiting? && a != Spawn(t) ==> t in s.ticks && s.ticks[t].Waiting?
    ensures a.Fire? && a.t == t ==> Next(s, a).ticks[t] == Ended
  {
  }

  // ---------------------------------------------------- flows that never run again

  /** Marked as running although nobody is going to run it or to unmark it. */
  ghost predicate Stranded(s: State, f: FlowId) { f in s.running && forall h :: !Holds(s, h, f) }

  /** The claimed flow does not reach an executor. */
  ghost predicate LosesClaim(s: State, a: Action) {
    a.Crash? || (a.Submit? && (s.executor == -1 || s.executor in s.shut))
  }

  /** A flow becomes stranded exactly when its claim gets lost on the way to the executor. */
  lemma StrandedExactly(s: State, a: Action, f: FlowId)
    requires Safe(s) && Enabled(s, a) && !Stranded(s, f)
    ensures Stranded(Next(s, a), f) <==> LosesClaim(s, a) && Holds(s, ByTick(a.t), f)
  {
    var s' := Next(s, a);
    if LosesClaim(s, a) && Holds(s, ByTick(a.t), f) {
      forall h ensures !Holds(s', h, f) {
        if Holds(s', h, f) { HoldersChange(s, a, h, f); }
      }
    } else if f in s'.running {
      if f !in s.running {
        assert Holds(s', ByTick(a.t), f);
      } else {
        var h :| Holds(s, h, f);
        if a.Submit? && h == ByTick(a.t) {
          assert Holds(s', ByJob(a.j), f);
        } else if a.Finish? && h == ByJob(a.j) {
        } else {
          assert Holds(s', h, f);
        }
      }
    }
  }

  /** Once stranded, a flow stays stranded through every continuation: no restart of the scheduler helps. */
  lemma StrandedStep(s: State, a: Action, f: FlowId)
    requires Stranded(s, f) && Enabled(s, a)
    ensures Stranded(Next(s, a), f)
  {
    var s' := Next(s, a);
    forall h ensures !Holds(s', h, f) {
      if Holds(s', h, f) { HoldersChange(s, a, h, f); }
    }
    if a.Finish? { assert Holds(s, ByJob(a.j), s.jobs[a.j].flow); }
  }

  lemma {:induction false} StrandedForever(s: State, acts: seq<Action>, t: State, f: FlowId)
    requires Stranded(s, f) && Run(s, acts, t)
    ensures Stranded(t, f)
    decreases |acts|
  {
    if acts != [] {
      StrandedStep(s, acts[0], f);
      StrandedForever(Next(s, acts[0]), acts[1..], t, f);
    }
  }

  /** Some step of the run loses a claim on the flow. */
  ghost predicate LosesClaimOn(s: State, acts: seq<Action>, f: FlowId)
    decreases |acts|
  {
    acts != [] && Enabled(s, acts[0]) &&
    ((LosesClaim(s, acts[0]) && Holds(s, ByTick(acts[0].t), f)) || LosesClaimOn(Next(s, acts[0]), acts[1..], f))
  }

  /** At the end of a run from a safe state a flow is stranded exactly when it was before, or a claim on it was lost. */
  lemma {:induction false} StrandedInTheEnd(s: State, acts: seq<Action>, t: State, f: FlowId)
    requires Safe(s) && Run(s, acts, t)
    ensures Stranded(t, f) <==> Stranded(s, f) || LosesClaimOn(s, acts, f)
    decreases |acts|
  {
    if Stranded(s, f) {
      StrandedForever(s, acts, t, f);
    } else if acts != [] {
      SafeStep(s, acts[0]);
      StrandedExactly(s, acts[0], f);
      StrandedInTheEnd(Next(s, acts[0]), acts[1..], t, f);
    }
  }

  /** No claim is lost anywhere in the run. */
  ghost predicate KeepsClaims(s: State, acts: seq<Action>)
    decreases |acts|
  {
    acts == [] || (Enabled(s, acts[0]) ==> !LosesClaim(s, acts[0]) && KeepsClaims(Next(s, acts[0]), acts[1..]))
  }

  /** Until a claim is lost, the running marks are exactly the flows being taken care of. */
  lemma {:induction false} RunningExactly(s: State, acts: seq<Action>, t: State, f: FlowId)
    requires Safe(s) && Run(s, acts, t) && KeepsClaims(s, acts) && !Stranded(s, f)
    ensures f in t.running <==> exists h :: Holds(t, h, f)
    decreases |acts|
  {
    if acts != [] {
      SafeStep(s, acts[0]);
      StrandedExactly(s, acts[0], f);
      RunningExactly(Next(s, acts[0]), acts[1..], t, f);
    }
  }

  lemma RunStep(s: State, a: Action, s': State, rest: seq<Action>, t: State)
    requires Enabled(s, a) && Next(s, a) == s' && Run(s', rest, t)
    ensures Run(s, [a] + rest, t)
  {
    assert ([a] + rest)[1..] == rest;
  }

  /** One timer, thread 0, in a scheduler whose only entry is `f`. */
  function Solo(f: FlowId, running: set<FlowId>, stopped: bool, executor: int, shut: set<int>, tick: Tick): State {
    State({f}, running, stopped, executor, shut, map[0 := tick], map[])
  }

  /** The scheduler is up and its first timer is about to fire. */
  function Up(f: FlowId): State { Solo(f, {}, false, 0, {}, Waiting) }

  /** The tick has claimed `f`. */
  function InTick(f: FlowId): State { Solo(f, {f}, false, 0, {}, Claimed(f, [])) }

  /** The scheduler has been stopped and the tick went on to its next entry. */
  function Down(f: FlowId): State { Solo(f, {f}, true, -1, {0}, Scanning([])) }

  lemma FireAndLook(f: FlowId, tail: seq<Action>, t: State)
    requires Run(Solo(f, {}, false, 0, {}, Evaluating(f, [])), tail, t)
    ensures Run(Up(f), [Fire(0, [f])] + ([Look(0)] + tail), t)
  {
    var s0 := Up(f);
    var s1 := Solo(f, {}, false, 0, {}, Scanning([f]));
    var s2 := Solo(f, {}, false, 0, {}, Evaluating(f, []));
    assert [f][1..] == [];
    RunStep(s1, Look(0), s2, tail, t);
    RunStep(s0, Fire(0, [f]), s1, [Look(0)] + tail, t);
  }

  lemma DecideAndClaim(f: FlowId, tail: seq<Action>, t: State)
    requires Run(InTick(f), tail, t)
    ensures Run(Solo(f, {}, false, 0, {}, Evaluating(f, [])), [Decide(0, true)] + ([Claim(0)] + tail), t)
  {
    var s0 := Solo(f, {}, false, 0, {}, Evaluating(f, []));
    var s1 := Solo(f, {}, false, 0, {}, Due(f, []));
    RunStep(s1, Claim(0), InTick(f), tail, t);
    RunStep(s0, Decide(0, true), s1, [Claim(0)] + tail, t);
  }

  const STOPPING := [SetStopped(true)] + ([ShutDown(0)] + ([SetExecutor(-1)] + ([Submit(0, 0)] + [])))

  lemma StopBeforeSubmit(f: FlowId)
    ensures Run(InTick(f), STOPPING, Down(f))
  {
    var s1 := Solo(f, {f}, true, 0, {}, Claimed(f, []));
    var s2 := Solo(f, {f}, true, 0, {0}, Claimed(f, []));
    var s3 := Solo(f, {f}, true, -1, {0}, Claimed(f, []));
    RunStep(s3, Submit(0, 0), Down(f), [], Down(f));
    RunStep(s2, SetExecutor(-1), s3, [Submit(0, 0)] + [], Down(f));
    RunStep(s1, ShutDown(0), s2, [SetExecutor(-1)] + ([Submit(0, 0)] + []), Down(f));
    RunStep(InTick(f), SetStopped(true), s1, [ShutDown(0)] + ([SetExecutor(-1)] + ([Submit(0, 0)] + [])), Down(f));
  }

  lemma StartUp(f: FlowId, tail: seq<Action>, t: State) returns (acts: seq<Action>)
    requires Run(Up(f), tail, t)
    ensures Run(INIT, acts, t)
  {
    var s1 := State({f}, {}, true, -1, {}, map[], map[]);
    var s2 := s1.(executor := 0);
    var s3 := s2.(stopped := false);
    acts := [Spawn(0)] + tail;
    RunStep(s3, Spawn(0), Up(f), tail, t);
    RunStep(s2, SetStopped(false), s3, acts, t);
    acts := [SetStopped(false)] + acts;
    RunStep(s1, SetExecutor(0), s2, acts, t);
    acts := [SetExecutor(0)] + acts;
    RunStep(INIT, Register(f), s1, acts, t);
    acts := [Register(f)] + acts;
  }

  /** It happens: a stop between claim and submission strands the flow for good. */
  lemma StopCanStrand(f: FlowId) returns (acts: seq<Action>)
    ensures Run(INIT, acts, Down(f)) && Stranded(Down(f), f)
  {
    StopBeforeSubmit(f);
    DecideAndClaim(f, STOPPING, Down(f));
    var acts' := [Decide(0, true)] + ([Claim(0)] + STOPPING);
    FireAndLook(f, acts', Down(f));
    acts := StartUp(f, [Fire(0, [f])] + ([Look(0)] + acts'), Down(f));
  }

  // ------------------------------------------------------------------------ the object

  /** The fields all threads share. */
  datatype Shared = Shared(entries: set<FlowId>, running: set<FlowId>, stopped: bool, executor: int, shut: set<int>)

  function SharedOf(s: State): Shared { Shared(s.entries, s.running, s.stopped, s.executor, s.shut) }

  /** Its methods are the single steps of the protocol on the shared fields; `Start` and `Stop` are sequences of
      them. */
  class FlowScheduler {
    var entries: set<FlowId>
    var running: set<FlowId>
    var stopped: bool
    var executor: int
    var shut: set<int>

    constructor ()
      ensures Now() == SharedOf(INIT)
    {
      entries, running, stopped, executor, shut := {}, {}, true, -1, {};
    }

    function Now(): Shared
      reads this
    {
      Shared(entries, running, stopped, executor, shut)
    }

    /** `valid`: there is a schedule and it parses. */
    method Register(f: FlowId, valid: bool) returns (ok: bool)
      modifies this
      ensures ok == valid
      ensures forall s: State :: SharedOf(s) == old(Now()) ==>
              Now() == SharedOf(if valid then Next(s, Action.Register(f)) else s)
    {
      if !valid { return false; }
      entries := entries + {f};
      return true;
    }

    method Unregister(f: FlowId) returns (ok: bool)
      modifies this
      ensures ok == (f in old(entries))
      ensures forall s: State :: SharedOf(s) == old(Now()) ==> Now() == SharedOf(Next(s, Action.Unregister(f)))
    {
      ok := f in entries;
      entries := entries - {f};
    }

    /** `x` names the new pool; a scheduler that is already running is left alone. */
    method Start(x: int)
      modifies this
      ensures forall s: State :: SharedOf(s) == old(Now()) ==>
        Now() == SharedOf(if s.stopped then Next(Next(s, SetExecutor(x)), SetStopped(false)) else s)
    {
      if !stopped { return; }
      executor := x;
      stopped := false;
    }

    method Stop()
      modifies this
      ensures forall s: State :: SharedOf(s) == old(Now()) ==>
        Now() == SharedOf(if s.executor == -1 then Next(s, SetStopped(true))
                          else Next(Next(Next(s, SetStopped(true)), ShutDown(s.executor)), SetExecutor(-1)))
    {
      stopped := true;
      if executor != -1 {
        shut := shut + {executor};
        executor := -1;
      }
    }

    /** The second check and the claim of a tick, under the lock. */
    method TryClaim(f: FlowId) returns (claimed: bool)
      modifies this
      ensures claimed <==> f !in old(running)
      ensures forall s: State, t :: SharedOf(s) == old(Now()) && Enabled(s, Claim(t)) && s.ticks[t].flow == f ==>
        Now() == SharedOf(Next(s, Claim(t))) && (claimed <==> Next(s, Claim(t)).ticks[t].Claimed?)
    {
      if f in running { return false; }
      running := running + {f};
      return true;
    }

    /** The finally block of a job. */
    method Discard(f: FlowId)
      modifies this
      ensures forall s: State, j :: SharedOf(s) == old(Now()) && Enabled(s, Finish(j)) && s.jobs[j].flow == f ==>
        Now() == SharedOf(Next(s, Finish(j)))
    {
      running := running - {f};
    }
  }
}
