/** Capability grants of hierarchical principals (capability_grant_manager.py). */
module CapabilityGrants {
  import opened Orders
  import opened Flows
  import opened PrincipalChain
  import opened HierarchicalGrant

  type Config = map<string, Value>

  datatype Permission = Permission(enabled: bool, config: Config)

  datatype Grant = Grant(enabled: bool, permissions: map<string, Permission>)

  datatype Denial = Tampered | NoGrant | GrantDisabled | NotGranted | PermissionDisabled

  /** The answer of `check`; a denial names the chain member at fault. */
  datatype Answer = Denied(at: string, why: Denial) | Allowed(config: Config)

  /** The in-memory state: grants by principal, and the ids whose files failed verification. */
  datatype State = State(grants: map<string, Grant>, tampered: set<string>)

  type Sanitizer = string -> string

  // ----------------------------------------------------------------------- check

  /** What one chain member says. */
  function Verdict(s: State, clean: Sanitizer, id: string, perm: string): Answer {
    if id in s.tampered || clean(id) in s.tampered then Denied(id, Tampered)
    else if id !in s.grants then Denied(id, NoGrant)
    else if !s.grants[id].enabled then Denied(id, GrantDisabled)
    else if perm !in s.grants[id].permissions then Denied(id, NotGranted)
    else if !s.grants[id].permissions[perm].enabled then Denied(id, PermissionDisabled)
    else Allowed(s.grants[id].permissions[perm].config)
  }

  /** The configurations along a chain, or the first denial. */
  function Collect(s: State, clean: Sanitizer, chain: seq<string>, perm: string): (Option<Answer>, seq<Config>) {
    if chain == [] then (None, [])
    else
      var (denial, configs) := Collect(s, clean, chain[..|chain| - 1], perm);
      var v := Verdict(s, clean, chain[|chain| - 1], perm);
      if denial.Some? then (denial, configs)
      else if v.Denied? then (Some(v), configs)
      else (None, configs + [v.config])
  }

  function Check(s: State, clean: Sanitizer, id: string, perm: string): Answer {
    if id in s.tampered || clean(id) in s.tampered then Denied(id, Tampered)
    else
      var (denial, configs) := Collect(s, clean, Chain(id), perm);
      if denial.Some? then denial.value else Allowed(MeetAll(configs))
  }

  lemma {:induction false} CollectAll(s: State, clean: Sanitizer, chain: seq<string>, perm: string)
    ensures var (denial, configs) := Collect(s, clean, chain, perm);
            && (denial.None? <==> forall i :: 0 <= i < |chain| ==> Verdict(s, clean, chain[i], perm).Allowed?)
            && (denial.Some? ==> denial.value.Denied?)
            && (denial.None? ==> |configs| == |chain|)
            && (denial.None? ==> forall i :: 0 <= i < |chain| ==>
                Verdict(s, clean, chain[i], perm) == Allowed(configs[i]))
    decreases |chain|
  {
    if chain != [] {
      CollectAll(s, clean, chain[..|chain| - 1], perm);
      assert forall i :: 0 <= i < |chain| - 1 ==> chain[..|chain| - 1][i] == chain[i];
    }
  }

  lemma {:induction false} CollectPrefix(s: State, clean: Sanitizer, chain: seq<string>, perm: string, n: nat)
    requires n <= |chain| && Collect(s, clean, chain, perm).0.None?
    ensures |Collect(s, clean, chain, perm).1| == |chain|
    ensures Collect(s, clean, chain[..n], perm) == (None, Collect(s, clean, chain, perm).1[..n])
    decreases |chain|
  {
    CollectAll(s, clean, chain, perm);
    if n == |chain| {
      TakeAll(chain);
      TakeAll(Collect(s, clean, chain, perm).1);
    } else {
      var m := |chain| - 1;
      CollectPrefix(s, clean, chain[..m], perm, n);
      assert chain[..m][..n] == chain[..n];
      var before, configs := Collect(s, clean, chain[..m], perm).1, Collect(s, clean, chain, perm).1;
      assert configs[..m] == before && configs[..n] == before[..n];
    }
  }

  /** A principal is allowed exactly when every member of its chain is. */
  lemma AllowedIffWholeChain(s: State, clean: Sanitizer, id: string, perm: string)
    ensures Check(s, clean, id, perm).Allowed? <==>
            forall i :: 0 <= i < |Chain(id)| ==> Verdict(s, clean, Chain(id)[i], perm).Allowed?
  {
    CollectAll(s, clean, Chain(id), perm);
    ChainShape(id);
    var c := Chain(id);
    assert c[|c| - 1] == id;
  }

  /** A chain member says yes if and only if no tamper mark is on it, by its own name or by the name of its file, it
      has an enabled grant, and in that the permission is enabled; the configuration is the one stored there. */
  lemma VerdictExactly(s: State, clean: Sanitizer, id: string, perm: string, config: Config)
    ensures Verdict(s, clean, id, perm) == Allowed(config) <==>
            && id !in s.tampered && clean(id) !in s.tampered
            && id in s.grants && s.grants[id].enabled
            && perm in s.grants[id].permissions && s.grants[id].permissions[perm] == Permission(true, config)
  {
  }

  /** A tamper mark on the principal or any of its ancestors denies. */
  lemma TamperDenies(s: State, clean: Sanitizer, id: string, perm: string, i: nat)
    requires i < |Chain(id)| && (Chain(id)[i] in s.tampered || clean(Chain(id)[i]) in s.tampered)
    ensures Check(s, clean, id, perm).Denied?
    ensures Chain(id)[i] == id ==> Check(s, clean, id, perm) == Denied(id, Tampered)
  {
    AllowedIffWholeChain(s, clean, id, perm);
  }

  lemma {:induction false} FirstDenial(s: State, clean: Sanitizer, chain: seq<string>, perm: string, i: nat)
    requires i < |chain| && Verdict(s, clean, chain[i], perm).Denied?
    requires forall k :: 0 <= k < i ==> Verdict(s, clean, chain[k], perm).Allowed?
    ensures Collect(s, clean, chain, perm).0 == Some(Verdict(s, clean, chain[i], perm))
    decreases |chain|
  {
    var n := |chain| - 1;
    if i == n {
      CollectAll(s, clean, chain[..n], perm);
    } else {
      FirstDenial(s, clean, chain[..n], perm, i);
    }
  }

  /** Otherwise a denial is that of the first chain member, from the root on, that says no. */
  lemma DenialOfFirst(s: State, clean: Sanitizer, id: string, perm: string, i: nat)
    requires id !in s.tampered && clean(id) !in s.tampered
    requires i < |Chain(id)| && Verdict(s, clean, Chain(id)[i], perm).Denied?
    requires forall k :: 0 <= k < i ==> Verdict(s, clean, Chain(id)[k], perm).Allowed?
    ensures Check(s, clean, id, perm) == Verdict(s, clean, Chain(id)[i], perm)
  {
    FirstDenial(s, clean, Chain(id), perm, i);
  }

  /** Attenuation: a principal that is allowed has only allowed ancestors, and each of them is allowed at least as
      much. */
  lemma Attenuation(s: State, clean: Sanitizer, id: string, perm: string, i: nat)
    requires i < |Chain(id)| && Check(s, clean, id, perm).Allowed?
    ensures var ancestor := Check(s, clean, Chain(id)[i], perm);
            ancestor.Allowed? && Below(Dict(Check(s, clean, id, perm).config), Dict(ancestor.config))
  {
    var chain := Chain(id);
    var configs := Collect(s, clean, chain, perm).1;
    CollectAll(s, clean, chain, perm);
    ChainOfMember(id, i);
    CollectPrefix(s, clean, chain, perm, i + 1);
    assert Verdict(s, clean, chain[i], perm).Allowed?;
    MeetAllNarrows(configs, i + 1);
  }

  /** The effective configuration is the largest one that is below the root's own grant and within every other grant
      along the chain. */
  lemma EffectiveConfig(s: State, clean: Sanitizer, id: string, perm: string, z: Value) returns (configs: seq<Config>)
    requires Check(s, clean, id, perm).Allowed?
    ensures |configs| == |Chain(id)|
    ensures forall i :: 0 <= i < |configs| ==> Verdict(s, clean, Chain(id)[i], perm) == Allowed(configs[i])
    ensures Below(z, Dict(Check(s, clean, id, perm).config)) <==> AllowedByAll(z, configs)
  {
    configs := Collect(s, clean, Chain(id), perm).1;
    CollectAll(s, clean, Chain(id), perm);
    MeetAllIsGreatest(z, configs);
  }

  /** Every list in the effective configuration, at any depth, consists of what the corresponding list of every chain
      member's own configuration holds, the strings literally. */
  lemma EffectiveLists(s: State, clean: Sanitizer, id: string, perm: string, i: nat)
    requires Check(s, clean, id, perm).Allowed? && i < |Chain(id)|
    ensures Verdict(s, clean, Chain(id)[i], perm).Allowed?
    ensures ListsInside(Dict(Check(s, clean, id, perm).config), Dict(Verdict(s, clean, Chain(id)[i], perm).config))
  {
    var z := Dict(Check(s, clean, id, perm).config);
    var configs := EffectiveConfig(s, clean, id, perm, z);
    BelowReflexive(z);
    assert Verdict(s, clean, Chain(id)[i], perm) == Allowed(configs[i]);
    if i == 0 { BelowInside(z, Dict(configs[0])); } else { WithinInside(z, Dict(configs[i])); }
  }

  // -------------------------------------------------------------------- updates

  /** `grant_permission`: creates or re-enables the grant, enables the permission, clears the tamper mark. */
  function Granted(s: State, clean: Sanitizer, id: string, perm: string, config: Config): State {
    var before := if id in s.grants then s.grants[id].permissions else map[];
    State(s.grants[id := Grant(true, before[perm := Permission(true, config)])], s.tampered - {id, clean(id)})
  }

  function PermissionRevoked(s: State, id: string, perm: string): State {
    if id in s.grants && perm in s.grants[id].permissions then
      var g := s.grants[id];
      s.(grants := s.grants[id := g.(permissions := g.permissions[perm := g.permissions[perm].(enabled := false)])])
    else s
  }

  function AllRevoked(s: State, id: string): State {
    if id in s.grants then s.(grants := s.grants[id := s.grants[id].(enabled := false)]) else s
  }

  lemma MemberDenies(s: State, clean: Sanitizer, id: string, perm: string, i: nat)
    requires i < |Chain(id)| && Verdict(s, clean, Chain(id)[i], perm).Denied?
    ensures Check(s, clean, id, perm).Denied?
  {
    AllowedIffWholeChain(s, clean, id, perm);
  }

  /** Revoking everything from a principal denies every permission to it and to all its descendants. */
  lemma RevokingAncestorDenies(s: State, clean: Sanitizer, id: string, perm: string, i: nat)
    requires i < |Chain(id)|
    ensures Check(AllRevoked(s, Chain(id)[i]), clean, id, perm).Denied?
    ensures Check(PermissionRevoked(s, Chain(id)[i], perm), clean, id, perm).Denied?
  {
    MemberDenies(AllRevoked(s, Chain(id)[i]), clean, id, perm, i);
    MemberDenies(PermissionRevoked(s, Chain(id)[i], perm), clean, id, perm, i);
  }

  /** Whatever t allows, s allows in the same way. */
  ghost predicate NoMore(t: State, s: State, clean: Sanitizer, perm: string) {
    forall x :: Verdict(t, clean, x, perm).Allowed? ==> Verdict(s, clean, x, perm) == Verdict(t, clean, x, perm)
  }

  lemma NoMoreAllowed(t: State, s: State, clean: Sanitizer, id: string, perm: string)
    requires NoMore(t, s, clean, perm) && Check(t, clean, id, perm).Allowed?
    ensures Check(s, clean, id, perm) == Check(t, clean, id, perm)
  {
    AllowedIffWholeChain(t, clean, id, perm);
    AllowedIffWholeChain(s, clean, id, perm);
    SameVerdicts(s, t, clean, Chain(id), perm);
  }

  /** Neither kind of revocation ever allows anything new, for anyone. */
  lemma RevokingNeverAllows(s: State, clean: Sanitizer, who: string, what: string, perm: string)
    ensures NoMore(AllRevoked(s, who), s, clean, perm) && NoMore(PermissionRevoked(s, who, what), s, clean, perm)
    ensures forall id :: Check(AllRevoked(s, who), clean, id, perm).Allowed? ==>
              Check(s, clean, id, perm) == Check(AllRevoked(s, who), clean, id, perm)
    ensures forall id :: Check(PermissionRevoked(s, who, what), clean, id, perm).Allowed? ==>
              Check(s, clean, id, perm) == Check(PermissionRevoked(s, who, what), clean, id, perm)
  {
    forall id | Check(AllRevoked(s, who), clean, id, perm).Allowed?
      ensures Check(s, clean, id, perm) == Check(AllRevoked(s, who), clean, id, perm)
    {
      NoMoreAllowed(AllRevoked(s, who), s, clean, id, perm);
    }
    forall id | Check(PermissionRevoked(s, who, what), clean, id, perm).Allowed?
      ensures Check(s, clean, id, perm) == Check(PermissionRevoked(s, who, what), clean, id, perm)
    {
      NoMoreAllowed(PermissionRevoked(s, who, what), s, clean, id, perm);
    }
  }

  lemma {:induction false} SameVerdicts(s: State, t: State, clean: Sanitizer, chain: seq<string>, perm: string)
    requires forall i :: 0 <= i < |chain| ==> Verdict(s, clean, chain[i], perm) == Verdict(t, clean, chain[i], perm)
    ensures Collect(s, clean, chain, perm) == Collect(t, clean, chain, perm)
    decreases |chain|
  {
    if chain != [] {
      assert forall i :: 0 <= i < |chain| - 1 ==> chain[..|chain| - 1][i] == chain[i];
      SameVerdicts(s, t, clean, chain[..|chain| - 1], perm);
    }
  }

  /** Every update concerns one principal, and those on one permission that permission only. */
  lemma UpdatesAreLocal(s: State, clean: Sanitizer, who: string, what: string, config: Config, id: string, perm: string)
    requires {id, clean(id)} !! {who, clean(who)} || (id == who && perm != what && who in s.grants)
    ensures Verdict(PermissionRevoked(s, who, what), clean, id, perm) == Verdict(s, clean, id, perm)
    ensures id != who ==> Verdict(AllRevoked(s, who), clean, id, perm) == Verdict(s, clean, id, perm)
    ensures id != who ==> Verdict(Granted(s, clean, who, what, config), clean, id, perm) == Verdict(s, clean, id, perm)
    ensures id == who ==>
            Granted(s, clean, who, what, config).grants[who].permissions.Keys == s.grants[who].permissions.Keys + {what}
    ensures id == who && perm in s.grants[who].permissions ==>
      Granted(s, clean, who, what, config).grants[who].permissions[perm] == s.grants[who].permissions[perm]
  {
  }

  /** Granting one permission after revoking all brings back the others too: each is allowed again exactly when it was
      enabled before the revocation. */
  lemma GrantUndoesRevokeAll(s: State, clean: Sanitizer, id: string, perm: string, config: Config, other: string)
    requires id in s.grants && perm != other
    ensures var t := Granted(AllRevoked(s, id), clean, id, perm, config);
            && Verdict(t, clean, id, perm) == Allowed(config)
            && (Verdict(t, clean, id, other).Allowed? <==>
                other in s.grants[id].permissions && s.grants[id].permissions[other].enabled)
  {
  }

  /** Right after a permission is granted, the principal has it with that very configuration as far as its own grant is
      concerned, and is allowed it if and only if all its ancestors are; a root principal always. Other members of the
      chain are judged as before, unless they share the name or file that a tamper mark was taken off. */
  lemma GrantTakesEffect(s: State, clean: Sanitizer, id: string, perm: string, config: Config)
    ensures var t, chain := Granted(s, clean, id, perm, config), Chain(id);
            && Verdict(t, clean, id, perm) == Allowed(config)
            && (Check(t, clean, id, perm).Allowed? <==>
                forall i :: 0 <= i < |chain| - 1 ==> Verdict(t, clean, chain[i], perm).Allowed?)
            && (forall i :: 0 <= i < |chain| - 1 && {chain[i], clean(chain[i])} !! {id, clean(id)} ==>
                  Verdict(t, clean, chain[i], perm) == Verdict(s, clean, chain[i], perm))
            && (!IsHierarchical(id) ==> Check(t, clean, id, perm) == Allowed(config))
  {
    var t, chain := Granted(s, clean, id, perm, config), Chain(id);
    ChainShape(id);
    AllowedIffWholeChain(t, clean, id, perm);
    assert Verdict(t, clean, chain[|chain| - 1], perm) == Allowed(config);
    if !IsHierarchical(id) { RootGranted(t, clean, id, perm, config); }
  }

  lemma RootGranted(t: State, clean: Sanitizer, id: string, perm: string, config: Config)
    requires !IsHierarchical(id) && Verdict(t, clean, id, perm) == Allowed(config)
    ensures Check(t, clean, id, perm) == Allowed(config)
  {
    ChainShape(id);
    assert Chain(id) == [id];
    assert [id][..0] == [];
    assert Collect(t, clean, [id], perm) == (None, [] + [config]);
  }

  // ---------------------------------------------------------------- the manager

  class CapabilityGrantManager {
    var grants: map<string, Grant>
    var tampered: set<string>
    const clean: Sanitizer

    ghost function Now(): State
      reads this
    {
      State(grants, tampered)
    }

    constructor (clean: Sanitizer, tampered: set<string>)
      ensures Now() == State(map[], tampered) && this.clean == clean
    {
      grants, this.tampered, this.clean := map[], tampered, clean;
    }

    method Ask(id: string, perm: string) returns (answer: Answer)
      ensures answer == Check(Now(), clean, id, perm)
    {
      if id in tampered || clean(id) in tampered {
        return Denied(id, Tampered);
      }
      var chain := Chain(id);
      var configs: seq<Config> := [];
      for i := 0 to |chain|
        invariant Collect(Now(), clean, chain[..i], perm) == (None, configs)
      {
        assert chain[..i + 1][..i] == chain[..i];
        var denial := AskOne(chain[i], perm);
        if denial.Denied? {
          StaysDenied(Now(), clean, chain, perm, i + 1);
          return denial;
        }
        configs := configs + [denial.config];
      }
      TakeAll(chain);
      var config := IntersectConfig(configs);
      answer := Allowed(config);
    }

    /** The checks of one round of the loop. */
    method AskOne(id: string, perm: string) returns (v: Answer)
      ensures v == Verdict(Now(), clean, id, perm)
    {
      if id in tampered || clean(id) in tampered { return Denied(id, Tampered); }
      if id !in grants { return Denied(id, NoGrant); }
      var grant := grants[id];
      if !grant.enabled { return Denied(id, GrantDisabled); }
      if perm !in grant.permissions { return Denied(id, NotGranted); }
      if !grant.permissions[perm].enabled { return Denied(id, PermissionDisabled); }
      v := Allowed(grant.permissions[perm].config);
    }

    method GrantPermission(id: string, perm: string, config: Config) returns (grant: Grant)
      modifies this
      ensures Now() == Granted(old(Now()), clean, id, perm, config) && grant == grants[id]
    {
      grant := if id in grants then grants[id] else Grant(true, map[]);
      grant := Grant(true, grant.permissions[perm := Permission(true, config)]);
      grants := grants[id := grant];
      tampered := tampered - {id};
      tampered := tampered - {clean(id)};
    }

    method RevokePermission(id: string, perm: string) returns (done: bool)
      modifies this
      ensures Now() == PermissionRevoked(old(Now()), id, perm)
      ensures done <==> id in old(grants) && perm in old(grants)[id].permissions
    {
      if id !in grants { return false; }
      var grant := grants[id];
      if perm !in grant.permissions { return false; }
      var permission := grant.permissions[perm].(enabled := false);
      grants := grants[id := grant.(permissions := grant.permissions[perm := permission])];
      done := true;
    }

    method RevokeAll(id: string) returns (done: bool)
      modifies this
      ensures Now() == AllRevoked(old(Now()), id) && (done <==> id in old(grants))
    {
      if id !in grants { return false; }
      grants := grants[id := grants[id].(enabled := false)];
      done := true;
    }
  }

  lemma {:induction false} StaysDenied(s: State, clean: Sanitizer, chain: seq<string>, perm: string, n: nat)
    requires n <= |chain| && Collect(s, clean, chain[..n], perm).0.Some?
    ensures Collect(s, clean, chain, perm).0 == Collect(s, clean, chain[..n], perm).0
    decreases |chain|
  {
    if n == |chain| {
      TakeAll(chain);
    } else {
      assert chain[..|chain| - 1][..n] == chain[..n];
      StaysDenied(s, clean, chain[..|chain| - 1], perm, n);
    }
  }
}
