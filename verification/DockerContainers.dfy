/** The table of active containers (docker_capability.py): every access is one step under the lock, and any number of
    `handle_run` and `handle_stop` calls interleave. */
module DockerContainers {
  import opened Flows
  import opened Orders

  const ABSOLUTE_MAX_CONTAINERS := 5
  const DEFAULT_MAX_CONTAINERS := 3

  type Name = string
  type Principal = string

  /** A `handle_stop` that has passed the ownership check. */
  datatype Stop = Stop(who: Principal, name: Name)

  datatype State = State(
    active: map<Name, Principal>,    // _active_containers
    inFlight: map<Name, Principal>,  // handle_run calls between their claim and their finally block
    stops: map<nat, Stop>,
    issued: map<Name, Principal>)    // every name ever generated

  const INIT := State(map[], map[], map[], map[])

  datatype Action =
    | Claim(name: Name, who: Principal, grantMax: Option<int>)
    | Finish(name: Name)
    | CheckStop(id: nat, who: Principal, name: Name)
    | Stopped(id: nat)               // docker stop returned, whatever its exit code
    | StopFailed(id: nat)            // docker stop timed out or raised

  function Owned(m: map<Name, Principal>, p: Principal): set<Name> { set n | n in m && m[n] == p }

  function MaxContainers(grantMax: Option<int>): int {
    var wanted := if grantMax.Some? then grantMax.value else DEFAULT_MAX_CONTAINERS;
    if wanted < ABSOLUTE_MAX_CONTAINERS then wanted else ABSOLUTE_MAX_CONTAINERS
  }

  /** A generated name has not been generated before. */
  predicate Enabled(s: State, a: Action) {
    match a
    case Claim(name, _, _) => name !in s.issued
    case Finish(name) => name in s.inFlight
    case CheckStop(id, _, _) => id !in s.stops
    case Stopped(id) => id in s.stops
    case StopFailed(id) => id in s.stops
  }

  function Next(s: State, a: Action): State
    requires Enabled(s, a)
  {
    match a
    case Claim(name, p, g) =>
      var s' := s.(issued := s.issued[name := p]);
      if |Owned(s.active, p)| >= MaxContainers(g) then s'
      else s'.(active := s.active[name := p], inFlight := s.inFlight[name := p])
    case Finish(name) => s.(active := s.active - {name}, inFlight := s.inFlight - {name})
    case CheckStop(id, p, name) =>
      if name in s.active && s.active[name] == p then s.(stops := s.stops[id := Stop(p, name)]) else s
    case Stopped(id) => s.(active := s.active - {s.stops[id].name}, stops := s.stops - {id})
    case StopFailed(id) => s.(stops := s.stops - {id})
  }

  ghost predicate Run(s: State, acts: seq<Action>, t: State)
    decreases |acts|
  {
    if acts == [] then s == t else Enabled(s, acts[0]) && Run(Next(s, acts[0]), acts[1..], t)
  }

  // -------------------------------------------------------------------- invariants

  ghost predicate Included(a: map<Name, Principal>, b: map<Name, Principal>) {
    forall n :: n in a ==> n in b && b[n] == a[n]
  }

  /** Active containers belong to runs in flight, names keep their owner, and a stop under way is for a container its
      caller owned. */
  ghost predicate Consistent(s: State) {
    && Included(s.active, s.inFlight) && Included(s.inFlight, s.issued)
    && forall id :: id in s.stops ==> s.stops[id].name in s.issued && s.issued[s.stops[id].name] == s.stops[id].who
  }

  /** No principal has more containers than its cap. */
  ghost predicate Capped(s: State, cap: Principal -> int) {
    forall p :: |Owned(s.active, p)| == 0 || |Owned(s.active, p)| <= cap(p)
  }

  lemma OwnedInsert(m: map<Name, Principal>, name: Name, p: Principal, q: Principal)
    requires name !in m
    ensures |Owned(m[name := p], q)| == |Owned(m, q)| + if p == q then 1 else 0
  {
    assert Owned(m[name := p], q) == Owned(m, q) + if p == q then {name} else {};
  }

  lemma OwnedRemove(m: map<Name, Principal>, name: Name, q: Principal)
    ensures |Owned(m - {name}, q)| <= |Owned(m, q)|
  {
    assert Owned(m - {name}, q) == Owned(m, q) - {name};
    assert Owned(m, q) == Owned(m - {name}, q) + Owned(m, q) * {name};
  }

  lemma ConsistentStep(s: State, a: Action)
    requires Consistent(s) && Enabled(s, a)
    ensures Consistent(Next(s, a))
  {
  }

  lemma CappedStep(s: State, a: Action, cap: Principal -> int)
    requires Consistent(s) && Capped(s, cap) && Enabled(s, a)
    requires a.Claim? ==> MaxContainers(a.grantMax) <= cap(a.who)
    ensures Capped(Next(s, a), cap)
  {
    forall p ensures |Owned(Next(s, a).active, p)| == 0 || |Owned(Next(s, a).active, p)| <= cap(p) {
      match a
      case Claim(name, q, _) =>
        assert name !in s.active;
        OwnedInsert(s.active, name, q, p);
      case Finish(name) => OwnedRemove(s.active, name, p);
      case CheckStop(_, _, _) =>
      case Stopped(id) => OwnedRemove(s.active, s.stops[id].name, p);
      case StopFailed(_) =>
    }
  }

  ghost predicate Granted(acts: seq<Action>, cap: Principal -> int) {
    forall i :: 0 <= i < |acts| && acts[i].Claim? ==> MaxContainers(acts[i].grantMax) <= cap(acts[i].who)
  }

  lemma {:induction false} AlwaysCapped(s: State, acts: seq<Action>, t: State, cap: Principal -> int)
    requires Consistent(s) && Capped(s, cap) && Run(s, acts, t) && Granted(acts, cap)
    ensures Consistent(t) && Capped(t, cap)
    decreases |acts|
  {
    if acts != [] {
      ConsistentStep(s, acts[0]);
      CappedStep(s, acts[0], cap);
      AlwaysCapped(Next(s, acts[0]), acts[1..], t, cap);
    }
  }

  /** A run starts, and its container is listed, if and only if its principal has fewer active containers than the
      grant allows, three if it does not say, and never more than five. */
  lemma ClaimExactly(s: State, name: Name, p: Principal, grantMax: Option<int>)
    requires Consistent(s) && Enabled(s, Claim(name, p, grantMax))
    ensures var t := Next(s, Claim(name, p, grantMax));
            var allowed := if grantMax.None? then 3 else if grantMax.value < 5 then grantMax.value else 5;
            && (name in t.active <==> |Owned(s.active, p)| < allowed)
            && (name in t.active ==> t.active[name] == p && name in t.inFlight)
            && (forall other :: other != name ==>
                  (other in t.active <==> other in s.active)
                      && (other in s.active ==> t.active[other] == s.active[other]))
  {
  }

  /** A stop is let through if and only if the container is the caller's, and takes it off the table when it is done. */
  lemma StopExactly(s: State, id: nat, p: Principal, name: Name)
    requires Enabled(s, CheckStop(id, p, name))
    ensures var t := Next(s, CheckStop(id, p, name));
            && t.active == s.active
            && (id in t.stops <==> name in s.active && s.active[name] == p)
            && (id in t.stops ==> Next(t, Stopped(id)).active == s.active - {name})
  {
  }

  /** In every interleaving each principal has at most five active containers, and no more than the largest maximum any
      of its grants has given it; every active container belongs to a run still in flight. */
  lemma AtMostFive(acts: seq<Action>, t: State, cap: Principal -> int)
    requires Run(INIT, acts, t) && Granted(acts, cap)
    ensures Consistent(t) && Capped(t, cap)
    ensures forall p :: |Owned(t.active, p)| <= ABSOLUTE_MAX_CONTAINERS
  {
    forall p ensures |Owned(INIT.active, p)| == 0 { assert Owned(INIT.active, p) == {}; }
    AlwaysCapped(INIT, acts, t, cap);
    AlwaysCapped(INIT, acts, t, (p: Principal) => ABSOLUTE_MAX_CONTAINERS);
    forall p ensures |Owned(t.active, p)| <= ABSOLUTE_MAX_CONTAINERS {
      assert ((p: Principal) => ABSOLUTE_MAX_CONTAINERS)(p) == ABSOLUTE_MAX_CONTAINERS;
    }
  }

  /** Nobody's steps take a container of another principal off the table: only its own run and stops its owner asked
      for do. */
  lemma RemovedByOwner(s: State, a: Action, name: Name)
    requires Consistent(s) && Enabled(s, a) && name in s.active && name !in Next(s, a).active
    ensures a == Finish(name) || (a.Stopped? && s.stops[a.id] == Stop(s.active[name], name))
  {
  }

  // --------------------------------------------------------- what the limit does not bound

  function NthName(i: nat): Name { seq(i, k requires 0 <= k < i => 'c') }

  /** n runs in flight, none of them on the table. */
  ghost predicate Detached(s: State, p: Principal, n: nat) {
    && s.active == map[] && s.stops == map[] && |s.inFlight| == n
    && (forall name :: name in s.issued ==> |name| < n)
    && (forall name :: name in s.inFlight ==> |name| < n && s.inFlight[name] == p)
  }

  lemma {:induction false} RunThen(s: State, acts: seq<Action>, t: State, a: Action)
    requires Run(s, acts, t) && Enabled(t, a)
    ensures Run(s, acts + [a], Next(t, a))
    decreases |acts|
  {
    if acts == [] {
      assert [a][1..] == [];
    } else {
      assert (acts + [a])[1..] == acts[1..] + [a];
      RunThen(Next(s, acts[0]), acts[1..], t, a);
    }
  }

  lemma DetachOneMore(s: State, p: Principal, n: nat)
    requires Detached(s, p, n)
    ensures var c := Claim(NthName(n), p, None);
            && Enabled(s, c) && Enabled(Next(s, c), CheckStop(0, p, NthName(n)))
            && Enabled(Next(Next(s, c), CheckStop(0, p, NthName(n))), Stopped(0))
            && Detached(Next(Next(Next(s, c), CheckStop(0, p, NthName(n))), Stopped(0)), p, n + 1)
  {
    var name := NthName(n);
    ClaimOnEmpty(s, p, name);
    var s1 := State(map[name := p], s.inFlight[name := p], map[], s.issued[name := p]);
    CheckAndStop(s1, p, name);
    assert |s1.inFlight| == n + 1;
  }

  lemma ClaimOnEmpty(s: State, p: Principal, name: Name)
    requires s.active == map[] && s.stops == map[] && name !in s.issued
    ensures Next(s, Claim(name, p, None)) == State(map[name := p], s.inFlight[name := p], map[], s.issued[name := p])
  {
    assert Owned(s.active, p) == {};
  }

  lemma CheckAndStop(s: State, p: Principal, name: Name)
    requires s.active == map[name := p] && s.stops == map[]
    ensures var s' := s.(stops := map[0 := Stop(p, name)]);
            Next(s, CheckStop(0, p, name)) == s' && Next(s', Stopped(0)) == s.(active := map[])
  {
  }

  /** A stop clears the table entry as soon as docker returns, also when the container has not stopped, so the number
      of runs of one principal that are in flight has no bound at all. */
  lemma {:induction false} InFlightUnbounded(p: Principal, n: nat) returns (acts: seq<Action>, t: State)
    ensures Run(INIT, acts, t) && Detached(t, p, n)
  {
    if n == 0 {
      acts, t := [], INIT;
    } else {
      acts, t := InFlightUnbounded(p, n - 1);
      DetachOneMore(t, p, n - 1);
      var a, b := Claim(NthName(n - 1), p, None), CheckStop(0, p, NthName(n - 1));
      var t1 := Next(t, a);
      var t2 := Next(t1, b);
      RunThen(INIT, acts, t, a);
      RunThen(INIT, acts + [a], t1, b);
      RunThen(INIT, acts + [a] + [b], t2, Stopped(0));
      acts, t := acts + [a] + [b] + [Stopped(0)], Next(t2, Stopped(0));
    }
  }

  // ------------------------------------------------------ what bounds the runs in flight

  /** A run that the table does not show. */
  predicate Unlisted(s: State, name: Name) { name in s.inFlight && name !in s.active }

  /** docker has returned for a container that is still listed. */
  predicate Detaches(s: State, a: Action, name: Name) {
    a.Stopped? && a.id in s.stops && s.stops[a.id].name == name && name in s.active
  }

  /** A run drops off the table while in flight exactly when a stop of its container returns before it. */
  lemma UnlistedExactly(s: State, a: Action, name: Name)
    requires Consistent(s) && Enabled(s, a) && !Unlisted(s, name)
    ensures Unlisted(Next(s, a), name) <==> Detaches(s, a, name)
  {
  }

  ghost predicate DetachesAny(s: State, a: Action) { exists name :: Detaches(s, a, name) }

  /** Everything in flight is listed, all along a run. */
  ghost predicate AlwaysListed(s: State, acts: seq<Action>)
    decreases |acts|
  {
    s.inFlight == s.active && (acts != [] && Enabled(s, acts[0]) ==> AlwaysListed(Next(s, acts[0]), acts[1..]))
  }

  ghost predicate NeverDetaches(s: State, acts: seq<Action>)
    decreases |acts|
  {
    acts != [] && Enabled(s, acts[0]) ==> !DetachesAny(s, acts[0]) && NeverDetaches(Next(s, acts[0]), acts[1..])
  }

  lemma ListedStep(s: State, a: Action)
    requires Consistent(s) && Enabled(s, a) && s.inFlight == s.active
    ensures Next(s, a).inFlight == Next(s, a).active <==> !DetachesAny(s, a)
  {
    var t := Next(s, a);
    forall name ensures Unlisted(t, name) <==> Detaches(s, a, name) { UnlistedExactly(s, a, name); }
    ConsistentStep(s, a);
    if !DetachesAny(s, a) {
      forall name ensures name in t.inFlight <==> name in t.active { assert !Detaches(s, a, name); }
    } else {
      var name :| Detaches(s, a, name);
      assert Unlisted(t, name);
    }
  }

  /** The table shows all runs in flight, all the time, if and only if no stop ever returns before the run it stops. */
  lemma {:induction false} ListedExactly(s: State, acts: seq<Action>, t: State)
    requires Consistent(s) && s.inFlight == s.active && Run(s, acts, t)
    ensures AlwaysListed(s, acts) <==> NeverDetaches(s, acts)
    decreases |acts|
  {
    if acts != [] {
      ListedStep(s, acts[0]);
      ConsistentStep(s, acts[0]);
      if Next(s, acts[0]).inFlight == Next(s, acts[0]).active { ListedExactly(Next(s, acts[0]), acts[1..], t); }
    }
  }

  /** docker has returned for a container of the principal that is still listed. */
  predicate DetachesOf(s: State, a: Action, p: Principal) {
    a.Stopped? && a.id in s.stops && s.stops[a.id].name in s.active && s.active[s.stops[a.id].name] == p
  }

  /** How many stops of the principal's containers returned before the runs. */
  function Detachments(s: State, acts: seq<Action>, p: Principal): nat
    decreases |acts|
  {
    if acts == [] || !Enabled(s, acts[0]) then 0
    else
      (if DetachesOf(s, acts[0], p) then 1 else 0) + Detachments(Next(s, acts[0]), acts[1..], p)
  }

  ghost function Surplus(s: State, p: Principal): set<Name> { Owned(s.inFlight, p) - Owned(s.active, p) }

  /** Owners of runs do not change. */
  lemma OwnerStays(s: State, a: Action, name: Name)
    requires Consistent(s) && Enabled(s, a) && name in s.inFlight && name in Next(s, a).inFlight
    ensures Next(s, a).inFlight[name] == s.inFlight[name]
  {
  }

  lemma NewRunIsListed(s: State, a: Action, name: Name)
    requires Consistent(s) && Enabled(s, a) && Unlisted(Next(s, a), name)
    ensures name in s.inFlight
  {
  }

  /** Only a container that is stopped too early joins the surplus. */
  lemma Joins(s: State, a: Action, p: Principal, name: Name)
    requires Consistent(s) && Enabled(s, a) && name in Surplus(Next(s, a), p) && name !in Surplus(s, p)
    ensures Detaches(s, a, name) && s.active[name] == p
  {
    NewRunIsListed(s, a, name);
    OwnerStays(s, a, name);
    UnlistedExactly(s, a, name);
  }

  lemma SurplusStep(s: State, a: Action, p: Principal)
    requires Consistent(s) && Enabled(s, a)
    ensures |Surplus(Next(s, a), p)| <= |Surplus(s, p)| + if DetachesOf(s, a, p) then 1 else 0
  {
    var after, before := Surplus(Next(s, a), p), Surplus(s, p);
    var joined := if DetachesOf(s, a, p) then {s.stops[a.id].name} else {};
    forall name | name in after ensures name in before + joined {
      if name !in before { Joins(s, a, p, name); }
    }
    SubsetCard(after, before + joined);
  }

  lemma {:induction false} SurplusRun(s: State, acts: seq<Action>, t: State, p: Principal)
    requires Consistent(s) && Run(s, acts, t)
    ensures |Surplus(t, p)| <= |Surplus(s, p)| + Detachments(s, acts, p)
    decreases |acts|
  {
    if acts != [] {
      SurplusStep(s, acts[0], p);
      ConsistentStep(s, acts[0]);
      SurplusRun(Next(s, acts[0]), acts[1..], t, p);
    }
  }

  lemma OwnedParts(s: State, p: Principal)
    requires Consistent(s)
    ensures |Owned(s.inFlight, p)| == |Owned(s.active, p)| + |Surplus(s, p)|
  {
    assert Owned(s.inFlight, p) == Owned(s.active, p) + Surplus(s, p);
  }

  /** A principal has at most five runs in flight plus one for every stop of its containers that returned too early. */
  lemma InFlightBounded(acts: seq<Action>, t: State, p: Principal)
    requires Run(INIT, acts, t)
    ensures |Owned(t.inFlight, p)| <= ABSOLUTE_MAX_CONTAINERS + Detachments(INIT, acts, p)
  {
    AtMostFive(acts, t, (q: Principal) => ABSOLUTE_MAX_CONTAINERS);
    SurplusRun(INIT, acts, t, p);
    OwnedParts(t, p);
  }

  // ------------------------------------------------------------------------ the object

  datatype Ownership = Verified | NotFound | AccessDenied

  class DockerCapabilityHandler {
    var activeContainers: map<Name, Principal>

    constructor ()
      ensures activeContainers == map[]
    {
      activeContainers := map[];
    }

    method CountActive(p: Principal) returns (n: nat)
      ensures n == |Owned(activeContainers, p)|
    {
      n := 0;
      var todo := activeContainers.Keys;
      ghost var counted := {};
      while todo != {}
        invariant todo <= activeContainers.Keys && counted == Owned(activeContainers, p) - todo && n == |counted|
        decreases |todo|
      {
        var name :| name in todo;
        if activeContainers[name] == p {
          assert Owned(activeContainers, p) - (todo - {name}) == counted + {name};
          n, counted := n + 1, counted + {name};
        } else {
          assert Owned(activeContainers, p) - (todo - {name}) == counted;
        }
        todo := todo - {name};
      }
      assert counted == Owned(activeContainers, p);
    }

    /** The limit check of `handle_run`; `name` is the freshly generated one. */
    method Reserve(p: Principal, grantMax: Option<int>, name: Name) returns (ok: bool)
      modifies this
      ensures ok <==> |Owned(old(activeContainers), p)| < MaxContainers(grantMax)
      ensures activeContainers == if ok then old(activeContainers)[name := p] else old(activeContainers)
      ensures forall s: State :: s.active == old(activeContainers) && name !in s.issued ==>
        activeContainers == Next(s, Claim(name, p, grantMax)).active
    {
      var count := CountActive(p);
      var maxCont := MaxContainers(grantMax);
      if count >= maxCont { return false; }
      activeContainers := activeContainers[name := p];
      return true;
    }

    method Release(name: Name)
      modifies this
      ensures activeContainers == old(activeContainers) - {name}
      ensures forall s: State :: s.active == old(activeContainers) && name in s.inFlight ==>
        activeContainers == Next(s, Finish(name)).active
    {
      activeContainers := activeContainers - {name};
    }

    /** `_verify_ownership` */
    method VerifyOwnership(p: Principal, name: Name) returns (r: Ownership)
      ensures r == NotFound <==> forall q :: name !in Owned(activeContainers, q)
      ensures r == AccessDenied <==> exists q :: q != p && name in Owned(activeContainers, q)
      ensures r == Verified <==> name in Owned(activeContainers, p)
    {
      if name !in activeContainers { return NotFound; }
      assert name in Owned(activeContainers, activeContainers[name]);
      r := if activeContainers[name] != p then AccessDenied else Verified;
    }
  }
}
