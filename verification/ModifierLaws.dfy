/** Laws of every application of modifiers (flow_modifier.py): results, length, surviving steps, phase order. */
module ModifierLaws {
  import opened Orders
  import opened Flows
  import opened FlowModifier

  // ------------------------------------------------------ one result per modifier

  function Bit(b: bool): nat { if b then 1 else 0 }

  /** How many modifiers carry an id, and how many results name it. */
  function Mentions(ms: seq<Modifier>, id: string): nat {
    if ms == [] then 0 else Mentions(ms[..|ms| - 1], id) + Bit(ms[|ms| - 1].id == id)
  }

  function Reports(rs: seq<ApplyResult>, id: string): nat {
    if rs == [] then 0 else Reports(rs[..|rs| - 1], id) + Bit(rs[|rs| - 1].modifier == id)
  }

  lemma {:induction false} ReportsConcat(a: seq<ApplyResult>, b: seq<ApplyResult>, id: string)
    ensures Reports(a + b, id) == Reports(a, id) + Reports(b, id)
    decreases |b|
  {
    if b == [] {
      assert a + b == a;
    } else {
      var n := |b| - 1;
      assert (a + b)[..|a + b| - 1] == a + b[..n];
      ReportsConcat(a, b[..n], id);
    }
  }

  lemma {:induction false} MentionsCons(m: Modifier, ms: seq<Modifier>, id: string)
    ensures Mentions([m] + ms, id) == Bit(m.id == id) + Mentions(ms, id)
    decreases |ms|
  {
    var n := |ms| - 1;
    if ms == [] {
      assert ([m] + ms)[..0] == [];
    } else {
      assert ([m] + ms)[..n + 1] == [m] + ms[..n];
      MentionsCons(m, ms[..n], id);
    }
  }

  lemma {:induction false} InsertIds(m: Modifier, ms: seq<Modifier>, id: string)
    ensures Mentions(Insert(Sooner, m, ms), id) == Bit(m.id == id) + Mentions(ms, id)
  {
    if ms != [] && Sooner(ms[0], m) {
      InsertIds(m, ms[1..], id);
      MentionsCons(ms[0], Insert(Sooner, m, ms[1..]), id);
      MentionsCons(ms[0], ms[1..], id);
      assert ms == [ms[0]] + ms[1..];
    } else {
      MentionsCons(m, ms, id);
      assert ms == [] ==> [m] == [m] + ms;
    }
  }

  lemma {:induction false} SortIds(ms: seq<Modifier>, id: string)
    ensures Mentions(Sort(Sooner, ms), id) == Mentions(ms, id)
  {
    if ms != [] {
      SortIds(ms[1..], id);
      InsertIds(ms[0], Sort(Sooner, ms[1..]), id);
      MentionsCons(ms[0], ms[1..], id);
      assert ms == [ms[0]] + ms[1..];
    }
  }

  lemma LastResult(ms: seq<Modifier>, why: Reason)
    requires ms != []
    ensures var before, m := ms[..|ms| - 1], ms[|ms| - 1];
            && Successes(ms) == Successes(before) + [Success(m)]
            && Skips(ms, why) == Skips(before, why) + [Skip(m, why)]
  {
  }

  lemma {:induction false} GroupReports(ms: seq<Modifier>, why: Reason, id: string)
    ensures Reports(Successes(ms), id) == Mentions(ms, id)
    ensures Reports(Skips(ms, why), id) == Mentions(ms, id)
    decreases |ms|
  {
    if ms != [] {
      var before, m := ms[..|ms| - 1], ms[|ms| - 1];
      GroupReports(before, why, id);
      LastResult(ms, why);
      ReportsSnoc(Successes(before), Success(m), id);
      ReportsSnoc(Skips(before, why), Skip(m, why), id);
    }
  }

  lemma {:induction false} ScreeningIds(env: Available, phases: seq<string>, ms: seq<Modifier>, id: string)
    ensures Reports(Refusals(env, phases, ms), id) + Mentions(Accept(env, phases, ms), id) == Mentions(ms, id)
    decreases |ms|
  {
    if ms == [] {
    } else {
      var before, m := ms[..|ms| - 1], ms[|ms| - 1];
      ScreeningIds(env, phases, before, id);
      assert ms == before + [m];
      ScreenOneMore(env, phases, before, m, id);
    }
  }

  lemma ScreenOneMore(env: Available, phases: seq<string>, seen: seq<Modifier>, m: Modifier, id: string)
    requires Reports(Refusals(env, phases, seen), id) + Mentions(Accept(env, phases, seen), id) == Mentions(seen, id)
    ensures Reports(Refusals(env, phases, seen + [m]), id) + Mentions(Accept(env, phases, seen + [m]), id)
            == Mentions(seen + [m], id)
  {
    ScreenOne(env, phases, seen, m, id);
    MentionsSnoc(seen, m, id);
  }

  lemma ScreenOne(env: Available, phases: seq<string>, seen: seq<Modifier>, m: Modifier, id: string)
    ensures Reports(Refusals(env, phases, seen + [m]), id) + Mentions(Accept(env, phases, seen + [m]), id)
         == Reports(Refusals(env, phases, seen), id) + Mentions(Accept(env, phases, seen), id) + Bit(m.id == id)
  {
    var s, a, r := Screen(env, phases, m), Accept(env, phases, seen), Refusals(env, phases, seen);
    ScreenNext(env, phases, seen, m);
    if s.Accepted? {
      assert s.m.id == m.id && Refusals(env, phases, seen + [m]) == r && Accept(env, phases, seen + [m]) == a + [s.m];
      MentionsSnoc(a, s.m, id);
    } else {
      assert Accept(env, phases, seen + [m]) == a && Refusals(env, phases, seen + [m]) == r + [Skip(m, s.reason)];
      ReportsSnoc(r, Skip(m, s.reason), id);
    }
  }

  lemma MentionsSnoc(ms: seq<Modifier>, m: Modifier, id: string)
    ensures Mentions(ms + [m], id) == Mentions(ms, id) + Bit(m.id == id)
  {
  }

  lemma ReportsSnoc(rs: seq<ApplyResult>, r: ApplyResult, id: string)
    ensures Reports(rs + [r], id) == Reports(rs, id) + Bit(r.modifier == id)
  {
  }

  ghost function AllKinds(ms: seq<Modifier>, id: string): nat {
    Mentions(Only(ms, Single), id) + Mentions(Only(ms, Before), id) + Mentions(Only(ms, After), id)
        + Mentions(Only(ms, AtEnd), id)
  }

  lemma OneKind(ms: seq<Modifier>, id: string)
    requires ms != []
    ensures AllKinds(ms, id) == AllKinds(ms[..|ms| - 1], id) + Bit(ms[|ms| - 1].id == id)
  {
    LastOfKind(ms, Single, id);
    LastOfKind(ms, Before, id);
    LastOfKind(ms, After, id);
    LastOfKind(ms, AtEnd, id);
  }

  lemma LastOfKind(ms: seq<Modifier>, k: Kind, id: string)
    requires ms != []
    ensures Mentions(Only(ms, k), id)
            == Mentions(Only(ms[..|ms| - 1], k), id) + Bit(KindOf(ms[|ms| - 1]) == k && ms[|ms| - 1].id == id)
  {
    OnlyIds(ms[..|ms| - 1], ms[|ms| - 1], k, id);
    assert ms == ms[..|ms| - 1] + [ms[|ms| - 1]];
  }

  lemma {:induction false} KindsPartition(ms: seq<Modifier>, id: string)
    ensures Mentions(ms, id) == AllKinds(ms, id)
    decreases |ms|
  {
    if ms != [] {
      KindsPartition(ms[..|ms| - 1], id);
      OneKind(ms, id);
    }
  }

  lemma OnlyIds(ms: seq<Modifier>, m: Modifier, k: Kind, id: string)
    ensures Mentions(Only(ms + [m], k), id) == Mentions(Only(ms, k), id) + Bit(KindOf(m) == k && m.id == id)
  {
    OnlyAppend(ms, m, k);
    var q := Only(ms, k);
    assert (q + [m])[..|q|] == q;
  }

  /** How many modifiers with the id the groups of the given keys hold. */
  ghost function GroupedIds(ms: seq<Modifier>, keys: seq<string>, id: string): nat {
    if keys == [] then 0 else GroupedIds(ms, keys[..|keys| - 1], id) + Mentions(Sharing(ms, keys[|keys| - 1]), id)
  }

  lemma {:induction false} KeysDistinct(ms: seq<Modifier>)
    ensures Distinct(KeysOf(ms))
    ensures forall k :: k in KeysOf(ms) <==> exists i :: 0 <= i < |ms| && KeyOf(ms[i]) == k
    decreases |ms|
  {
    if ms != [] {
      var n := |ms| - 1;
      KeysDistinct(ms[..n]);
      var before := KeysOf(ms[..n]);
      forall k ensures k in KeysOf(ms) <==> exists i :: 0 <= i < |ms| && KeyOf(ms[i]) == k {
        assert k in KeysOf(ms) <==> k in before || k == KeyOf(ms[n]);
        if k in before {
          var i :| 0 <= i < n && KeyOf(ms[..n][i]) == k;
          assert KeyOf(ms[i]) == k;
        }
        if i :| 0 <= i < n && KeyOf(ms[i]) == k { assert KeyOf(ms[..n][i]) == k; }
      }
    }
  }

  /** The last modifier is in the group of its key and in no other. */
  lemma LastShares(ms: seq<Modifier>, k: string, id: string)
    requires ms != []
    ensures var m := ms[|ms| - 1];
            Mentions(Sharing(ms, k), id) == Mentions(Sharing(ms[..|ms| - 1], k), id) + Bit(KeyOf(m) == k && m.id == id)
  {
    var q := Sharing(ms[..|ms| - 1], k);
    if KeyOf(ms[|ms| - 1]) == k { MentionsSnoc(q, ms[|ms| - 1], id); } else { assert q + [] == q; }
  }

  lemma {:induction false} LastGrouped(ms: seq<Modifier>, keys: seq<string>, id: string)
    requires ms != [] && Distinct(keys)
    ensures var m := ms[|ms| - 1];
            GroupedIds(ms, keys, id) == GroupedIds(ms[..|ms| - 1], keys, id) + Bit(KeyOf(m) in keys && m.id == id)
    decreases |keys|
  {
    if keys != [] {
      var n := |keys| - 1;
      DistinctLast(keys);
      LastGrouped(ms, keys[..n], id);
      LastShares(ms, keys[n], id);
    }
  }

  /** The modifiers with the id are in the groups. */
  lemma {:induction false} GroupsPartition(ms: seq<Modifier>, id: string)
    ensures GroupedIds(ms, KeysOf(ms), id) == Mentions(ms, id)
    decreases |ms|
  {
    if ms != [] {
      GroupsPartition(ms[..|ms| - 1], id);
      OneMoreGrouped(ms, id);
    }
  }

  lemma OneMoreGrouped(ms: seq<Modifier>, id: string)
    requires ms != []
    ensures var before, m := ms[..|ms| - 1], ms[|ms| - 1];
            GroupedIds(ms, KeysOf(ms), id) == GroupedIds(before, KeysOf(before), id) + Bit(m.id == id)
  {
    var before, k := ms[..|ms| - 1], KeyOf(ms[|ms| - 1]);
    var keys := KeysOf(before);
    KeysDistinct(before);
    LastGrouped(ms, keys, id);
    if k !in keys {
      NotSharing(before, k);
      LastShares(ms, k, id);
      GroupedIdsSnoc(ms, keys, k, id);
    }
  }

  lemma GroupedIdsSnoc(ms: seq<Modifier>, keys: seq<string>, k: string, id: string)
    ensures GroupedIds(ms, keys + [k], id) == GroupedIds(ms, keys, id) + Mentions(Sharing(ms, k), id)
  {
  }

  lemma InjectGroupIds(p: Progress, side: Kind, key: string, ms: seq<Modifier>, id: string)
    ensures Reports(InjectGroup(p, side, key, Group(ms, key)).results, id)
            == Reports(p.results, id) + Mentions(Sharing(ms, key), id)
  {
    var g := Group(ms, key);
    SortIds(Sharing(ms, key), id);
    GroupReports(g, TargetNotFound(key), id);
    ReportsConcat(p.results, Successes(g), id);
    ReportsConcat(p.results, Skips(g, TargetNotFound(key)), id);
  }

  lemma {:induction false} InjectIds(p: Progress, side: Kind, keys: seq<string>, ms: seq<Modifier>, id: string)
    ensures Reports(InjectAll(p, side, keys, ms).results, id) == Reports(p.results, id) + GroupedIds(ms, keys, id)
    decreases |keys|
  {
    if keys != [] {
      var n := |keys| - 1;
      InjectIds(p, side, keys[..n], ms, id);
      InjectGroupIds(InjectAll(p, side, keys[..n], ms), side, keys[n], ms, id);
    }
  }

  lemma {:induction false} AppendIds(p: Progress, phases: seq<string>, keys: seq<string>, ms: seq<Modifier>, id: string)
    ensures Reports(AppendAll(p, phases, keys, ms).results, id) == Reports(p.results, id) + GroupedIds(ms, keys, id)
    decreases |keys|
  {
    if keys != [] {
      var n := |keys| - 1;
      AppendIds(p, phases, keys[..n], ms, id);
      SortIds(Sharing(ms, keys[n]), id);
      GroupReports(Group(ms, keys[n]), UnexpectedAction, id);
      ReportsConcat(AppendAll(p, phases, keys[..n], ms).results, Successes(Group(ms, keys[n])), id);
    }
  }

  lemma {:induction false} SinglesIds(p: Progress, ms: seq<Modifier>, id: string)
    ensures Reports(ApplySingles(p, ms).results, id) == Reports(p.results, id) + Mentions(ms, id)
    decreases |ms|
  {
    if ms != [] {
      var n := |ms| - 1;
      SinglesIds(p, ms[..n], id);
      var q := ApplySingles(p, ms[..n]);
      var r := ApplySingle(q, ms[n]).results;
      assert r[..|r| - 1] == q.results && r[|r| - 1].modifier == ms[n].id;
    }
  }

  /** Every modifier gets exactly one result, whatever becomes of it: each id has as many results as modifiers. */
  lemma OneResultEach(env: Available, flow: Flow, ms: seq<Modifier>, id: string)
    ensures Reports(Apply(env, flow, ms).results, id) == Mentions(ms, id)
  {
    var active := Accept(env, flow.phases, ms);
    var b, a, e := Only(active, Before), Only(active, After), Only(active, AtEnd);
    var p0 := Progress(flow.steps, Refusals(env, flow.phases, ms));
    var p1 := ApplySingles(p0, Only(active, Single));
    var p2 := InjectAll(p1, Before, KeysOf(b), b);
    var p3 := InjectAll(p2, After, KeysOf(a), a);
    ScreeningIds(env, flow.phases, ms, id);
    KindsPartition(active, id);
    SinglesIds(p0, Only(active, Single), id);
    InjectIds(p1, Before, KeysOf(b), b, id);
    InjectIds(p2, After, KeysOf(a), a, id);
    AppendIds(p3, flow.phases, KeysOf(e), e, id);
    GroupsPartition(b, id);
    GroupsPartition(a, id);
    GroupsPartition(e, id);
  }

  // ------------------------------------------------------------------- length

  function Gain(r: ApplyResult): int {
    if r.Skipped? then 0
    else match r.action
      case InjectBefore => 1
      case InjectAfter => 1
      case Append => 1
      case Remove => -1
      case _ => 0
  }

  /** Successful injections and appends minus successful removals. */
  function NetGain(rs: seq<ApplyResult>): int {
    if rs == [] then 0 else NetGain(rs[..|rs| - 1]) + Gain(rs[|rs| - 1])
  }

  lemma {:induction false} NetGainConcat(a: seq<ApplyResult>, b: seq<ApplyResult>)
    ensures NetGain(a + b) == NetGain(a) + NetGain(b)
    decreases |b|
  {
    if b == [] {
      assert a + b == a;
    } else {
      var n := |b| - 1;
      assert (a + b)[..|a + b| - 1] == a + b[..n];
      NetGainConcat(a, b[..n]);
    }
  }

  lemma {:induction false} GroupGain(ms: seq<Modifier>, why: Reason)
    requires forall m :: m in ms ==> KindOf(m) != Single
    ensures NetGain(Successes(ms)) == |ms| && NetGain(Skips(ms, why)) == 0
    decreases |ms|
  {
    if ms != [] {
      var before, m := ms[..|ms| - 1], ms[|ms| - 1];
      assert m in ms && forall x :: x in before ==> x in ms;
      GroupGain(before, why);
      LastResult(ms, why);
      GainSnoc(Successes(before), Success(m));
      GainSnoc(Skips(before, why), Skip(m, why));
    }
  }

  lemma {:induction false} OnlyIn(ms: seq<Modifier>, k: Kind)
    ensures forall m :: m in Only(ms, k) <==> m in ms && KindOf(m) == k
    decreases |ms|
  {
    if ms != [] {
      var n := |ms| - 1;
      OnlyIn(ms[..n], k);
      assert ms == ms[..n] + [ms[n]];
    }
  }

  lemma {:induction false} SharingIn(ms: seq<Modifier>, key: string)
    ensures forall m :: m in Sharing(ms, key) <==> m in ms && KeyOf(m) == key
    decreases |ms|
  {
    if ms != [] {
      var n := |ms| - 1;
      SharingIn(ms[..n], key);
      assert ms == ms[..n] + [ms[n]];
    }
  }

  lemma GroupIn(ms: seq<Modifier>, key: string)
    ensures forall m :: m in Group(ms, key) <==> m in ms && KeyOf(m) == key
  {
    SharingIn(ms, key);
    SortSorts(Sooner, Sharing(ms, key));
    forall m ensures m in Group(ms, key) <==> m in Sharing(ms, key) {
      assert m in multiset(Group(ms, key)) <==> m in multiset(Sharing(ms, key));
    }
  }

  /** What no rewriting changes: the length less the net gain recorded so far. */
  ghost function Ledger(p: Progress): int { |p.steps| - NetGain(p.results) }

  lemma {:induction false} InjectLedger(p: Progress, side: Kind, keys: seq<string>, ms: seq<Modifier>)
    requires forall m :: m in ms ==> KindOf(m) != Single
    ensures Ledger(InjectAll(p, side, keys, ms)) == Ledger(p)
    decreases |keys|
  {
    if keys != [] {
      var n := |keys| - 1;
      var q, g := InjectAll(p, side, keys[..n], ms), Group(ms, keys[n]);
      InjectLedger(p, side, keys[..n], ms);
      GroupIn(ms, keys[n]);
      GroupGain(g, TargetNotFound(keys[n]));
      NetGainConcat(q.results, Successes(g));
      NetGainConcat(q.results, Skips(g, TargetNotFound(keys[n])));
    }
  }

  lemma {:induction false} AppendStepsLength(steps: seq<Step>, phases: seq<string>, ss: seq<Step>)
    ensures |AppendSteps(steps, phases, ss)| == |steps| + |ss|
    decreases |ss|
  {
    if ss != [] { AppendStepsLength(steps, phases, ss[..|ss| - 1]); }
  }

  lemma {:induction false} AppendLedger(p: Progress, phases: seq<string>, keys: seq<string>, ms: seq<Modifier>)
    requires forall m :: m in ms ==> KindOf(m) != Single
    ensures Ledger(AppendAll(p, phases, keys, ms)) == Ledger(p)
    decreases |keys|
  {
    if keys != [] {
      var n := |keys| - 1;
      var q, g := AppendAll(p, phases, keys[..n], ms), Group(ms, keys[n]);
      AppendLedger(p, phases, keys[..n], ms);
      GroupIn(ms, keys[n]);
      GroupGain(g, UnexpectedAction);
      NetGainConcat(q.results, Successes(g));
      AppendStepsLength(q.steps, phases, StepsFrom(g));
    }
  }

  lemma {:induction false} SinglesLedger(p: Progress, ms: seq<Modifier>)
    requires forall m :: m in ms ==> KindOf(m) == Single
    ensures Ledger(ApplySingles(p, ms)) == Ledger(p)
    decreases |ms|
  {
    if ms != [] {
      var n := |ms| - 1;
      assert forall m :: m in ms[..n] ==> m in ms;
      SinglesLedger(p, ms[..n]);
      SingleLedger(ApplySingles(p, ms[..n]), ms[n]);
    }
  }

  /** A replacement or removal is recorded once, as applied if it finds its step. */
  lemma SingleRecorded(p: Progress, m: Modifier)
    ensures var rs := ApplySingle(p, m).results;
            && |rs| == |p.results| + 1 && rs[..|p.results|] == p.results
            && rs[|p.results|].action == m.action && (rs[|p.results|].Applied? <==> ActsAt(p.steps, m) >= 0)
  {
  }

  lemma SingleLedger(p: Progress, m: Modifier)
    requires KindOf(m) == Single
    ensures Ledger(ApplySingle(p, m)) == Ledger(p)
  {
    SingleIs(p, m);
    SingleRecorded(p, m);
    var rs := ApplySingle(p, m).results;
    assert NetGain(rs) == NetGain(p.results) + Gain(rs[|p.results|]);
  }

  lemma {:induction false} RefusalsGainNothing(env: Available, phases: seq<string>, ms: seq<Modifier>)
    ensures NetGain(Refusals(env, phases, ms)) == 0
    decreases |ms|
  {
    if ms != [] {
      var n := |ms| - 1;
      RefusalsGainNothing(env, phases, ms[..n]);
      RefusalGainsNothing(Refusals(env, phases, ms[..n]), ms[n], Screen(env, phases, ms[n]));
    }
  }

  lemma RefusalGainsNothing(rs: seq<ApplyResult>, m: Modifier, s: Screened)
    ensures NetGain(rs + if s.Refused? then [Skip(m, s.reason)] else []) == NetGain(rs)
  {
    assert rs + [] == rs;
    if s.Refused? { GainSnoc(rs, Skip(m, s.reason)); }
  }

  lemma GainSnoc(rs: seq<ApplyResult>, r: ApplyResult)
    ensures NetGain(rs + [r]) == NetGain(rs) + Gain(r)
  {
  }

  /** The length changes by the successful injections and appends minus the successful removals. */
  lemma LengthLaw(env: Available, flow: Flow, ms: seq<Modifier>)
    ensures |Apply(env, flow, ms).steps| == |flow.steps| + NetGain(Apply(env, flow, ms).results)
  {
    var active := Accept(env, flow.phases, ms);
    var b, a, e := Only(active, Before), Only(active, After), Only(active, AtEnd);
    OnlyIn(active, Single);
    OnlyIn(active, Before);
    OnlyIn(active, After);
    OnlyIn(active, AtEnd);
    var p0 := Progress(flow.steps, Refusals(env, flow.phases, ms));
    var p1 := ApplySingles(p0, Only(active, Single));
    var p2 := InjectAll(p1, Before, KeysOf(b), b);
    RefusalsGainNothing(env, flow.phases, ms);
    SinglesLedger(p0, Only(active, Single));
    InjectLedger(p1, Before, KeysOf(b), b);
    InjectLedger(p2, After, KeysOf(a), a);
    AppendLedger(InjectAll(p2, After, KeysOf(a), a), flow.phases, KeysOf(e), e);
  }

  // ---------------------------------------------------------- surviving steps

  lemma {:induction false} InsertedAround<T>(a: seq<T>, b: seq<T>, c: seq<T>)
    ensures Subsequence(a + c, a + b + c)
    decreases |a| + |b|
  {
    if a != [] {
      assert (a + c)[1..] == a[1..] + c && (a + b + c)[1..] == a[1..] + b + c;
      InsertedAround(a[1..], b, c);
    } else if b != [] {
      assert (a + b + c)[1..] == a + b[1..] + c;
      InsertedAround(a, b[1..], c);
    } else {
      assert a + c == c && a + b + c == c;
      SubsequenceSelf(c);
    }
  }

  lemma InjectGroupKeeps(p: Progress, side: Kind, key: string, group: seq<Modifier>)
    ensures Subsequence(p.steps, InjectGroup(p, side, key, group).steps)
  {
    var i := Locate(p.steps, key);
    if i < 0 {
      SubsequenceSelf(p.steps);
    } else {
      var at := if side == Before then i else i + 1;
      InsertedAround(p.steps[..at], StepsFrom(group), p.steps[at..]);
      assert p.steps[..at] + p.steps[at..] == p.steps;
    }
  }

  /** Injections only add steps; the others keep their order. */
  lemma {:induction false} InjectKeeps(p: Progress, side: Kind, keys: seq<string>, ms: seq<Modifier>)
    ensures Subsequence(p.steps, InjectAll(p, side, keys, ms).steps)
    decreases |keys|
  {
    if keys == [] {
      SubsequenceSelf(p.steps);
    } else {
      var n := |keys| - 1;
      var q := InjectAll(p, side, keys[..n], ms);
      InjectKeeps(p, side, keys[..n], ms);
      InjectGroupKeeps(q, side, keys[n], Group(ms, keys[n]));
      SubsequenceTransitive(p.steps, q.steps, InjectAll(p, side, keys, ms).steps);
    }
  }

  lemma AppendStepKeeps(q: seq<Step>, phases: seq<string>, s: Step)
    ensures Subsequence(q, AppendStep(q, phases, s))
  {
    var at := EndOfPhase(q, phases, PhaseIndex(phases, s.phase));
    InsertedAround(q[..at], [s], q[at..]);
    assert q[..at] + q[at..] == q;
  }

  lemma {:induction false} AppendStepsKeep(steps: seq<Step>, phases: seq<string>, ss: seq<Step>)
    ensures Subsequence(steps, AppendSteps(steps, phases, ss))
    decreases |ss|
  {
    if ss == [] {
      SubsequenceSelf(steps);
    } else {
      var q := AppendSteps(steps, phases, ss[..|ss| - 1]);
      AppendStepsKeep(steps, phases, ss[..|ss| - 1]);
      AppendStepKeeps(q, phases, ss[|ss| - 1]);
      SubsequenceTransitive(steps, q, AppendSteps(steps, phases, ss));
    }
  }

  lemma {:induction false} AppendKeeps(p: Progress, phases: seq<string>, keys: seq<string>, ms: seq<Modifier>)
    ensures Subsequence(p.steps, AppendAll(p, phases, keys, ms).steps)
    decreases |keys|
  {
    if keys == [] {
      SubsequenceSelf(p.steps);
    } else {
      var n := |keys| - 1;
      var q := AppendAll(p, phases, keys[..n], ms);
      AppendKeeps(p, phases, keys[..n], ms);
      AppendStepsKeep(q.steps, phases, StepsFrom(Group(ms, keys[n])));
      SubsequenceTransitive(p.steps, q.steps, AppendAll(p, phases, keys, ms).steps);
    }
  }

  /** Successful replacements and removals. */
  function Losses(rs: seq<ApplyResult>): nat {
    if rs == [] then 0
    else
      var r := rs[|rs| - 1];
      Losses(rs[..|rs| - 1]) + Bit(r.Applied? && (r.action.Replace? || r.action.Remove?))
  }

  /** Where the steps of a list come from: positions in the original list, none for a step that was put there. */
  ghost predicate Follows(original: seq<Step>, s: seq<Step>, tags: seq<Option<nat>>) {
    && |tags| == |s|
    && (forall j :: 0 <= j < |s| && tags[j].Some? ==> tags[j].value < |original| && s[j] == original[tags[j].value])
    && (forall i, j :: 0 <= i < j < |s| && tags[i].Some? && tags[j].Some? ==> tags[i].value < tags[j].value)
  }

  /** The steps at the untouched positions, and no others of the original list, are there, in their old order. */
  ghost predicate Survive(original: seq<Step>, touched: set<nat>, s: seq<Step>, tags: seq<Option<nat>>) {
    Follows(original, s, tags) && forall v: nat :: v < |original| ==> (Some(v) in tags <==> v !in touched)
  }

  /** The position a replacement or removal acts on, or -1. */
  function ActsAt(s: seq<Step>, m: Modifier): (i: int)
    ensures -1 <= i < |s|
  {
    if m.action.Replace? || m.action.Remove? then Locate(s, Target(m)) else -1
  }

  ghost function SingleTags(s: seq<Step>, tags: seq<Option<nat>>, m: Modifier): seq<Option<nat>>
    requires |tags| == |s|
  {
    var i := ActsAt(s, m);
    if i < 0 then tags else if m.action.Replace? then tags[i := None] else tags[..i] + tags[i + 1..]
  }

  /** Origins after the replacements and removals. */
  ghost function Tags(p: Progress, ms: seq<Modifier>): (tags: seq<Option<nat>>)
    ensures |tags| == |ApplySingles(p, ms).steps|
    decreases |ms|
  {
    if ms == [] then seq(|p.steps|, i requires 0 <= i < |p.steps| => Some(i))
    else SingleTags(ApplySingles(p, ms[..|ms| - 1]).steps, Tags(p, ms[..|ms| - 1]), ms[|ms| - 1])
  }

  /** The original position of the step that a modifier replaces or removes, if it is one of the original steps. */
  ghost function Hit(s: seq<Step>, tags: seq<Option<nat>>, m: Modifier): set<nat>
    requires |tags| == |s|
  {
    var i := ActsAt(s, m);
    if i >= 0 && tags[i].Some? then {tags[i].value} else {}
  }

  /** The original positions whose steps are replaced or removed. */
  ghost function Touched(p: Progress, ms: seq<Modifier>): set<nat>
    decreases |ms|
  {
    if ms == [] then {}
    else Touched(p, ms[..|ms| - 1]) + Hit(ApplySingles(p, ms[..|ms| - 1]).steps, Tags(p, ms[..|ms| - 1]), ms[|ms| - 1])
  }

  lemma TagOnce(original: seq<Step>, s: seq<Step>, tags: seq<Option<nat>>, i: nat, j: nat)
    requires Follows(original, s, tags) && i < |s| && j < |s| && tags[i].Some? && tags[i] == tags[j]
    ensures i == j
  {
  }

  /** What is left of the tags when position i is lost. */
  predicate Lost(tags: seq<Option<nat>>, i: nat, tags': seq<Option<nat>>) {
    i < |tags| && (tags' == tags[i := None] || tags' == tags[..i] + tags[i + 1..])
  }

  lemma LostFrom(tags: seq<Option<nat>>, i: nat, tags': seq<Option<nat>>, j: nat) returns (k: nat)
    requires Lost(tags, i, tags') && j < |tags'| && tags'[j].Some?
    ensures k < |tags| && k != i && tags[k] == tags'[j]
  {
    k := if |tags'| == |tags| || j < i then j else j + 1;
  }

  lemma LostTo(tags: seq<Option<nat>>, i: nat, tags': seq<Option<nat>>, k: nat)
    requires Lost(tags, i, tags') && k < |tags| && k != i
    ensures tags[k] in tags'
  {
    assert tags'[if |tags'| == |tags| || k < i then k else k - 1] == tags[k];
  }

  /** Losing position i takes its tag away and no other. */
  lemma LoseTag(original: seq<Step>, s: seq<Step>, tags: seq<Option<nat>>, i: nat, tags': seq<Option<nat>>)
    requires Follows(original, s, tags) && Lost(tags, i, tags')
    ensures forall v: nat :: Some(v) in tags' <==> Some(v) in tags && Some(v) != tags[i]
  {
    forall v: nat ensures Some(v) in tags' <==> Some(v) in tags && Some(v) != tags[i] {
      if Some(v) in tags' {
        var j :| 0 <= j < |tags'| && tags'[j] == Some(v);
        var k := LostFrom(tags, i, tags', j);
        if tags[i] == Some(v) { TagOnce(original, s, tags, i, k); }
      } else if Some(v) in tags && Some(v) != tags[i] {
        var k :| 0 <= k < |tags| && tags[k] == Some(v);
        LostTo(tags, i, tags', k);
      }
    }
  }

  lemma ReplacedFollows(original: seq<Step>, s: seq<Step>, tags: seq<Option<nat>>, i: nat, x: Step)
    requires Follows(original, s, tags) && i < |s|
    ensures Follows(original, s[i := x], tags[i := None])
  {
  }

  lemma RemovedFollows(original: seq<Step>, s: seq<Step>, tags: seq<Option<nat>>, i: nat)
    requires Follows(original, s, tags) && i < |s|
    ensures Follows(original, s[..i] + s[i + 1..], tags[..i] + tags[i + 1..])
  {
    var r, u := s[..i] + s[i + 1..], tags[..i] + tags[i + 1..];
    forall j | 0 <= j < |r|
      ensures r[j] == s[if j < i then j else j + 1] && u[j] == tags[if j < i then j else j + 1] { }
  }

  lemma SingleIs(p: Progress, m: Modifier)
    ensures var i := ActsAt(p.steps, m);
            && (i < 0 ==> ApplySingle(p, m).steps == p.steps)
            && (i >= 0 && m.action.Replace? ==> ApplySingle(p, m).steps == p.steps[i := StepFrom(m)])
            && (i >= 0 && !m.action.Replace? ==> ApplySingle(p, m).steps == p.steps[..i] + p.steps[i + 1..])
  {
  }

  lemma SingleSurvives(original: seq<Step>, touched: set<nat>, p: Progress, tags: seq<Option<nat>>, m: Modifier)
    requires Survive(original, touched, p.steps, tags)
    ensures Survive(original, touched + Hit(p.steps, tags, m), ApplySingle(p, m).steps, SingleTags(p.steps, tags, m))
  {
    SingleIs(p, m);
    var i, s := ActsAt(p.steps, m), p.steps;
    if i < 0 {
      assert touched + {} == touched;
    } else if m.action.Replace? {
      StillThere(original, touched, s, tags, i, Some(StepFrom(m)));
    } else {
      StillThere(original, touched, s, tags, i, None);
    }
  }

  lemma StillThere(original: seq<Step>, touched: set<nat>, s: seq<Step>, tags: seq<Option<nat>>, i: nat,
                   put: Option<Step>)
    requires Survive(original, touched, s, tags) && i < |s|
    ensures Survive(original, touched + (if tags[i].Some? then {tags[i].value} else {}),
                    if put.Some? then s[i := put.value] else s[..i] + s[i + 1..],
                    if put.Some? then tags[i := None] else tags[..i] + tags[i + 1..])
  {
    if put.Some? {
      LoseTag(original, s, tags, i, tags[i := None]);
      ReplacedFollows(original, s, tags, i, put.value);
      SurviveLess(original, touched, s, tags, i, s[i := put.value], tags[i := None]);
    } else {
      LoseTag(original, s, tags, i, tags[..i] + tags[i + 1..]);
      RemovedFollows(original, s, tags, i);
      SurviveLess(original, touched, s, tags, i, s[..i] + s[i + 1..], tags[..i] + tags[i + 1..]);
    }
  }

  lemma SurviveLess(original: seq<Step>, touched: set<nat>, s: seq<Step>, tags: seq<Option<nat>>, i: nat,
                    s': seq<Step>, tags': seq<Option<nat>>)
    requires Survive(original, touched, s, tags) && i < |s| && Follows(original, s', tags')
    requires forall v: nat :: Some(v) in tags' <==> Some(v) in tags && Some(v) != tags[i]
    ensures Survive(original, touched + (if tags[i].Some? then {tags[i].value} else {}), s', tags')
  {
  }

  lemma {:induction false} SinglesSurvive(p: Progress, ms: seq<Modifier>)
    ensures Survive(p.steps, Touched(p, ms), ApplySingles(p, ms).steps, Tags(p, ms))
    decreases |ms|
  {
    if ms == [] {
      forall v: nat | v < |p.steps| ensures Some(v) in Tags(p, ms) { assert Tags(p, ms)[v] == Some(v); }
    } else {
      var n := |ms| - 1;
      SinglesSurvive(p, ms[..n]);
      SingleSurvives(p.steps, Touched(p, ms[..n]), ApplySingles(p, ms[..n]), Tags(p, ms[..n]), ms[n]);
    }
  }

  /** At most one position for every success. */
  lemma {:induction false} TouchedAtMostLosses(p: Progress, ms: seq<Modifier>)
    ensures Losses(p.results) + |Touched(p, ms)| <= Losses(ApplySingles(p, ms).results)
    decreases |ms|
  {
    if ms != [] {
      var n := |ms| - 1;
      var q := ApplySingles(p, ms[..n]);
      TouchedAtMostLosses(p, ms[..n]);
      HitCosts(q, Tags(p, ms[..n]), ms[n]);
      OneMore(Touched(p, ms[..n]), Hit(q.steps, Tags(p, ms[..n]), ms[n]));
    }
  }

  lemma HitCosts(p: Progress, tags: seq<Option<nat>>, m: Modifier)
    requires |tags| == |p.steps|
    ensures Losses(ApplySingle(p, m).results) == Losses(p.results) + Bit(ActsAt(p.steps, m) >= 0)
    ensures |Hit(p.steps, tags, m)| <= Bit(ActsAt(p.steps, m) >= 0)
  {
    SingleRecorded(p, m);
  }

  lemma OneMore(a: set<nat>, b: set<nat>)
    ensures |a + b| <= |a| + |b|
  {
    assert |a + b| == |a| + |b - a| && |b - a| <= |b| by { SubsetCard(b - a, b); }
  }

  lemma TagInFront(original: seq<Step>, s: seq<Step>, tags: seq<Option<nat>>, t: seq<Step>, rest: seq<Option<nat>>)
    requires Follows(original, s, tags) && s != [] && t != [] && s[0] == t[0] && Follows(original, t[1..], rest)
    requires forall v: nat :: Some(v) in rest <==> Some(v) in tags[1..]
    ensures Follows(original, t, [tags[0]] + rest)
  {
    var tags' := [tags[0]] + rest;
    forall j | 0 < j < |t| && tags[0].Some? && tags'[j].Some? ensures tags[0].value < tags'[j].value {
      assert Some(tags'[j].value) in rest;
      assert Some(tags'[j].value) in tags[1..];
    }
  }

  /** Further steps do not disturb the origins of those that were there. */
  lemma {:induction false} SpreadTags(original: seq<Step>, s: seq<Step>, tags: seq<Option<nat>>, t: seq<Step>)
      returns (tags': seq<Option<nat>>)
    requires Follows(original, s, tags) && Subsequence(s, t)
    ensures Follows(original, t, tags') && forall v: nat :: Some(v) in tags' <==> Some(v) in tags
    decreases |t|
  {
    if t == [] {
      tags' := tags;
    } else if s != [] && s[0] == t[0] && Subsequence(s[1..], t[1..]) {
      var rest := SpreadTags(original, s[1..], tags[1..], t[1..]);
      tags' := [tags[0]] + rest;
      SameTags(tags, rest);
      TagInFront(original, s, tags, t, rest);
    } else {
      var rest := SpreadTags(original, s, tags, t[1..]);
      tags' := [None] + rest;
    }
  }

  lemma SameTags(tags: seq<Option<nat>>, rest: seq<Option<nat>>)
    requires tags != [] && forall v: nat :: Some(v) in rest <==> Some(v) in tags[1..]
    ensures forall v: nat :: Some(v) in [tags[0]] + rest <==> Some(v) in tags
  {
    assert tags == [tags[0]] + tags[1..];
  }

  lemma {:induction false} RefusalsLoseNothing(env: Available, phases: seq<string>, ms: seq<Modifier>)
    ensures Losses(Refusals(env, phases, ms)) == 0
    decreases |ms|
  {
    if ms != [] {
      var n := |ms| - 1;
      RefusalsLoseNothing(env, phases, ms[..n]);
      RefusalLosesNothing(Refusals(env, phases, ms[..n]), ms[n], Screen(env, phases, ms[n]));
    }
  }

  lemma RefusalLosesNothing(rs: seq<ApplyResult>, m: Modifier, s: Screened)
    ensures Losses(rs + if s.Refused? then [Skip(m, s.reason)] else []) == Losses(rs)
  {
    assert rs + [] == rs;
    if s.Refused? { LossSnoc(rs, Skip(m, s.reason)); }
  }

  lemma LossSnoc(rs: seq<ApplyResult>, r: ApplyResult)
    ensures Losses(rs + [r]) == Losses(rs) + Bit(r.Applied? && (r.action.Replace? || r.action.Remove?))
  {
  }

  /** Progress after the replacements and removals. */
  function Rewritten(env: Available, flow: Flow, ms: seq<Modifier>): Progress {
    ApplySingles(Progress(flow.steps, Refusals(env, flow.phases, ms)), Only(Accept(env, flow.phases, ms), Single))
  }

  /** Progress when the injections of a side begin. */
  function Start(env: Available, flow: Flow, ms: seq<Modifier>, side: Kind): Progress {
    var p, b := Rewritten(env, flow, ms), Only(Accept(env, flow.phases, ms), Before);
    if side == Before then p else InjectAll(p, Before, KeysOf(b), b)
  }

  /** What is there when a number of groups of a side have been injected is there in the end, in the same order. */
  lemma StageKept(env: Available, flow: Flow, ms: seq<Modifier>, side: Kind, i: nat)
    requires side == Before || side == After
    requires i <= |KeysOf(Only(Accept(env, flow.phases, ms), side))|
    ensures var g := Only(Accept(env, flow.phases, ms), side);
            Subsequence(InjectAll(Start(env, flow, ms, side), side, KeysOf(g)[..i], g).steps,
                        Apply(env, flow, ms).steps)
  {
    var active := Accept(env, flow.phases, ms);
    var g, a, e := Only(active, side), Only(active, After), Only(active, AtEnd);
    var p, keys := Start(env, flow, ms, side), KeysOf(g);
    var p2 := Start(env, flow, ms, After);
    var p3 := InjectAll(p2, After, KeysOf(a), a);
    LaterGroupsKeep(p, side, keys, i, g);
    InjectKeeps(p2, After, KeysOf(a), a);
    AppendKeeps(p3, flow.phases, KeysOf(e), e);
    var s := InjectAll(p, side, keys[..i], g).steps;
    if side == Before { SubsequenceTransitive(s, p2.steps, p3.steps); }
    SubsequenceTransitive(s, p3.steps, Apply(env, flow, ms).steps);
  }

  lemma {:induction false} LaterGroupsKeep(p: Progress, side: Kind, keys: seq<string>, i: nat, ms: seq<Modifier>)
    requires i <= |keys|
    ensures Subsequence(InjectAll(p, side, keys[..i], ms).steps, InjectAll(p, side, keys, ms).steps)
    decreases |keys|
  {
    var n := |keys| - 1;
    if i == |keys| {
      assert keys[..i] == keys;
      SubsequenceSelf(InjectAll(p, side, keys, ms).steps);
    } else {
      assert keys[..n][..i] == keys[..i];
      LaterGroupsKeep(p, side, keys[..n], i, ms);
      var q := InjectAll(p, side, keys[..n], ms);
      InjectGroupKeeps(q, side, keys[n], Group(ms, keys[n]));
      SubsequenceTransitive(InjectAll(p, side, keys[..i], ms).steps, q.steps, InjectAll(p, side, keys, ms).steps);
    }
  }

  /** The steps that no replacement or removal acts on are in the result, unchanged and in their old order: exactly
      their positions are among the origins, at most one position per success is not, and injections and appends lose
      nothing of what the replacements and removals leave. */
  lemma SurvivorsKeepOrder(env: Available, flow: Flow, ms: seq<Modifier>)
      returns (touched: set<nat>, tags: seq<Option<nat>>)
    ensures touched == Touched(Progress(flow.steps, Refusals(env, flow.phases, ms)),
                               Only(Accept(env, flow.phases, ms), Single))
    ensures Survive(flow.steps, touched, Apply(env, flow, ms).steps, tags)
    ensures |touched| <= Losses(Rewritten(env, flow, ms).results)
    ensures Subsequence(Rewritten(env, flow, ms).steps, Apply(env, flow, ms).steps)
  {
    var p, singles := Progress(flow.steps, Refusals(env, flow.phases, ms)), Only(Accept(env, flow.phases, ms), Single);
    touched := Touched(p, singles);
    SinglesSurvive(p, singles);
    RefusalsLoseNothing(env, flow.phases, ms);
    TouchedAtMostLosses(p, singles);
    StageKept(env, flow, ms, Before, 0);
    tags := SpreadTags(flow.steps, Rewritten(env, flow, ms).steps, Tags(p, singles), Apply(env, flow, ms).steps);
  }
}
