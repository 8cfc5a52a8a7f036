/** Pack approval records (approval_manager.py): the steps taken under the lock and what every run of them keeps.

    `rollback_to_version` and `auto_approve_if_dev` release the lock between looking and acting; they are two steps
    each, and anything may happen in between. */
module Approvals {
  import opened Flows

  type PackId = string

  /** Relative path -> SHA-256 of the file. */
  type Hashes = map<string, string>

  datatype Status = INSTALLED | PENDING | APPROVED | RUNNING | MODIFIED | BLOCKED | ERROR

  datatype Deed = Approve | ApproveRule | UpdateModified | Rollback(index: nat)

  datatype Event = Event(version: int, deed: Deed, hashes: Hashes)

  datatype Approval = Approval(status: Status, fileHashes: Hashes, history: seq<Event>, ruleApproved: bool,
                               rejection: Option<string>)

  type Approvals = map<PackId, Approval>

  const CORE_PACK_ID_PREFIX := "core_"

  predicate IsCore(p: PackId) { CORE_PACK_ID_PREFIX <= p }

  // -------------------------------------------------------------- steps on one map

  datatype Op =
    | Scan(pack: PackId)                                   // a pack found on disk
    | LoadTampered(pack: PackId)                           // a grant file whose signature is missing or wrong
    | DoApprove(pack: PackId, current: Option<Hashes>)     // None: no pack directory
    | DoApproveRule(pack: PackId, isRule: bool)            // the pack_type in ecosystem.json
    | Reject(pack: PackId, reason: string)
    | MarkModified(pack: PackId)
    | ApplyUpdate(pack: PackId, hashes: Hashes)
    | Remove(pack: PackId)
    | Restore(pack: PackId, index: nat, target: Hashes)    // the last phase of a rollback

  function Fresh(status: Status): Approval { Approval(status, map[], [], false, None) }

  /** Append an event with the next version number. */
  function Record(a: Approval, deed: Deed): Approval {
    a.(history := a.history + [Event(|a.history| + 1, deed, a.fileHashes)])
  }

  function Approved(a: Approval, hashes: Hashes, deed: Deed): Approval {
    Record(a.(status := APPROVED, fileHashes := hashes, rejection := None), deed)
  }

  predicate Succeeds(m: Approvals, op: Op) {
    match op
    case Scan(_) => true
    case LoadTampered(_) => true
    case DoApprove(p, current) => p in m && current.Some?
    case DoApproveRule(p, isRule) => p in m && m[p].status == APPROVED && isRule
    case _ => op.pack in m
  }

  function Effect(m: Approvals, op: Op): Approvals {
    if !Succeeds(m, op) then m
    else
      match op
      case Scan(p) => if p in m then m else m[p := Fresh(INSTALLED)]
      case LoadTampered(p) => m[p := Fresh(MODIFIED)]
      case DoApprove(p, current) => m[p := Approved(m[p], current.value, Approve)]
      case DoApproveRule(p, _) => m[p := Record(m[p].(ruleApproved := true), ApproveRule)]
      case Reject(p, reason) => m[p := m[p].(status := BLOCKED, rejection := Some(reason))]
      case MarkModified(p) => m[p := m[p].(status := MODIFIED)]
      case ApplyUpdate(p, hashes) =>
        if m[p].fileHashes == hashes then m
        else m[p := Record(m[p].(status := MODIFIED, fileHashes := hashes), UpdateModified)]
      case Remove(p) => m - {p}
      case Restore(p, index, target) => m[p := Approved(m[p], target, Rollback(index))]
  }

  // ------------------------------------------------------------------ interleavings

  /** A call that has looked at a record and will act later. */
  datatype Pending = Rolling(pack: PackId, index: nat, target: Hashes) | Auto(pack: PackId)

  datatype State = State(approvals: Approvals, pending: map<nat, Pending>)

  const INIT := State(map[], map[])

  datatype Action =
    | Atomic(op: Op)
    | BeginRollback(id: nat, pack: PackId, index: int)
    | EndRollback(id: nat, current: Option<Hashes>)    // the files as they are now, None if the directory is gone
    | BeginAuto(id: nat, pack: PackId, isDev: bool)    // both environment variables say so
    | EndAuto(id: nat, current: Option<Hashes>)

  predicate Enabled(s: State, a: Action) {
    match a
    case Atomic(op) => !op.Restore?
    case BeginRollback(id, _, _) => id !in s.pending
    case EndRollback(id, _) => id in s.pending && s.pending[id].Rolling?
    case BeginAuto(id, _, _) => id !in s.pending
    case EndAuto(id, _) => id in s.pending && s.pending[id].Auto?
  }

  predicate CanRollBack(m: Approvals, p: PackId, index: int) { p in m && 0 <= index < |m[p].history| }

  /** The cases in which the development mode goes on to approve. */
  predicate MayAutoApprove(m: Approvals, p: PackId, isDev: bool) {
    isDev && p in m && m[p].status != APPROVED && m[p].status != BLOCKED
  }

  function Next(s: State, a: Action): State
    requires Enabled(s, a)
  {
    match a
    case Atomic(op) => s.(approvals := Effect(s.approvals, op))
    case BeginRollback(id, p, index) =>
      if CanRollBack(s.approvals, p, index)
      then s.(pending := s.pending[id := Rolling(p, index, s.approvals[p].history[index].hashes)])
      else s
    case EndRollback(id, current) =>
      var r := s.pending[id];
      var s' := s.(pending := s.pending - {id});
      if current != Some(r.target) then s'
      else s'.(approvals := Effect(s.approvals, Restore(r.pack, r.index, r.target)))
    case BeginAuto(id, p, isDev) =>
      if MayAutoApprove(s.approvals, p, isDev) then s.(pending := s.pending[id := Auto(p)]) else s
    case EndAuto(id, current) =>
      State(Effect(s.approvals, DoApprove(s.pending[id].pack, current)), s.pending - {id})
  }

  ghost predicate Run(s: State, acts: seq<Action>, t: State)
    decreases |acts|
  {
    if acts == [] then s == t else Enabled(s, acts[0]) && Run(Next(s, acts[0]), acts[1..], t)
  }

  // ------------------------------------------------------------------ one record

  function LastHashes(h: seq<Event>): Hashes { if h == [] then map[] else h[|h| - 1].hashes }

  predicate Grants(d: Deed) { d.Approve? || d.ApproveRule? || d.Rollback? }

  ghost predicate Numbered(h: seq<Event>) { forall i :: 0 <= i < |h| ==> h[i].version == i + 1 }

  /** A rule approval repeats the hashes of the event before it. */
  ghost predicate RuleEventsRepeat(h: seq<Event>) {
    forall i :: 0 <= i < |h| && h[i].deed.ApproveRule? ==> h[i].hashes == LastHashes(h[..i])
  }

  ghost predicate HasRuleEvent(h: seq<Event>) { exists i :: 0 <= i < |h| && h[i].deed.ApproveRule? }

  ghost predicate Sound(a: Approval) {
    && Numbered(a.history) && RuleEventsRepeat(a.history)
    && a.fileHashes == LastHashes(a.history)
    && (a.status == APPROVED ==> a.history != [] && Grants(a.history[|a.history| - 1].deed))
    && (a.ruleApproved ==> HasRuleEvent(a.history))
  }

  ghost predicate AllSound(m: Approvals) { forall p :: p in m ==> Sound(m[p]) }

  lemma RecordSound(a: Approval, deed: Deed)
    requires Numbered(a.history) && RuleEventsRepeat(a.history)
    requires deed.ApproveRule? ==> a.fileHashes == LastHashes(a.history)
    requires a.ruleApproved ==> deed.ApproveRule? || HasRuleEvent(a.history)
    requires a.status == APPROVED ==> Grants(deed)
    ensures Sound(Record(a, deed))
  {
    var h, h' := a.history, Record(a, deed).history;
    assert h'[..|h|] == h;
    forall i | 0 <= i < |h'| && h'[i].deed.ApproveRule? ensures h'[i].hashes == LastHashes(h'[..i]) {
      if i < |h| { assert h'[..i] == h[..i] && h'[i] == h[i]; }
    }
    if HasRuleEvent(h) {
      var i :| 0 <= i < |h| && h[i].deed.ApproveRule?;
      assert h'[i].deed.ApproveRule?;
    }
    if deed.ApproveRule? { assert h'[|h|].deed.ApproveRule?; }
  }

  lemma UpdateSound(m: Approvals, p: PackId, a: Approval)
    requires AllSound(m) && Sound(a)
    ensures AllSound(m[p := a])
  {
  }

  lemma EffectSound(m: Approvals, op: Op)
    requires AllSound(m)
    ensures AllSound(Effect(m, op))
  {
    if Succeeds(m, op) && op.pack in m {
      var a := m[op.pack];
      assert Sound(a);
      match op
      case DoApprove(p, current) => ApprovedSound(a, current.value, Approve);
      case DoApproveRule(p, _) => RecordSound(a.(ruleApproved := true), ApproveRule);
      case ApplyUpdate(p, hashes) => RecordSound(a.(status := MODIFIED, fileHashes := hashes), UpdateModified);
      case Restore(p, index, target) => ApprovedSound(a, target, Rollback(index));
      case _ =>
    }
    if op.pack in Effect(m, op) {
      assert Sound(Effect(m, op)[op.pack]);
      UpdateSound(m, op.pack, Effect(m, op)[op.pack]);
    }
  }

  lemma ApprovedSound(a: Approval, hashes: Hashes, deed: Deed)
    requires Sound(a) && Grants(deed) && !deed.ApproveRule?
    ensures Sound(Approved(a, hashes, deed))
  {
    RecordSound(a.(status := APPROVED, fileHashes := hashes, rejection := None), deed);
  }

  /** The operation on the records that an action performs. */
  function Performed(s: State, a: Action): Option<Op>
    requires Enabled(s, a)
  {
    match a
    case Atomic(op) => Some(op)
    case BeginRollback(_, _, _) => None
    case EndRollback(id, current) =>
      var r := s.pending[id];
      if current == Some(r.target) then Some(Restore(r.pack, r.index, r.target)) else None
    case BeginAuto(_, _, _) => None
    case EndAuto(id, current) => Some(DoApprove(s.pending[id].pack, current))
  }

  lemma PerformedEffect(s: State, a: Action)
    requires Enabled(s, a)
    ensures var op := Performed(s, a);
            Next(s, a).approvals == if op.Some? then Effect(s.approvals, op.value) else s.approvals
  {
  }

  /** In every run from an empty store versions count from 1, the stored hashes are those of the last event, an
      approved pack was last approved, rule-approved or rolled back, and a rule approval never changes hashes. */
  lemma {:induction false} AlwaysSound(s: State, acts: seq<Action>, t: State)
    requires AllSound(s.approvals) && Run(s, acts, t)
    ensures AllSound(t.approvals)
    decreases |acts|
  {
    if acts != [] {
      var op := Performed(s, acts[0]);
      PerformedEffect(s, acts[0]);
      if op.Some? { EffectSound(s.approvals, op.value); }
      AlwaysSound(Next(s, acts[0]), acts[1..], t);
    }
  }

  // ------------------------------------------------------------------- histories

  /** The record of a pack is neither dropped nor replaced after a signature failure. */
  ghost predicate Keeps(acts: seq<Action>, p: PackId) {
    forall i :: 0 <= i < |acts| && acts[i].Atomic? ==> acts[i].op != Remove(p) && acts[i].op != LoadTampered(p)
  }

  lemma HistoryStep(s: State, a: Action, p: PackId)
    requires Enabled(s, a) && p in s.approvals
    requires a.Atomic? ==> a.op != Remove(p) && a.op != LoadTampered(p)
    ensures p in Next(s, a).approvals && s.approvals[p].history <= Next(s, a).approvals[p].history
  {
    PerformedEffect(s, a);
  }

  /** Histories only grow at their end. */
  lemma {:induction false} HistoryAppendOnly(s: State, acts: seq<Action>, t: State, p: PackId)
    requires Run(s, acts, t) && Keeps(acts, p) && p in s.approvals
    ensures p in t.approvals && s.approvals[p].history <= t.approvals[p].history
    decreases |acts|
  {
    if acts != [] {
      HistoryStep(s, acts[0], p);
      HistoryAppendOnly(Next(s, acts[0]), acts[1..], t, p);
    }
  }

  /** Every rollback event repeats the hashes of the earlier event it names. */
  ghost predicate RollbacksRepeat(h: seq<Event>) {
    forall i :: 0 <= i < |h| && h[i].deed.Rollback? ==> h[i].deed.index < i && h[h[i].deed.index].hashes == h[i].hashes
  }

  /** The rollbacks under way still point at what they saw. */
  ghost predicate Faithful(s: State, p: PackId) {
    && (p in s.approvals ==> RollbacksRepeat(s.approvals[p].history))
    && forall id :: id in s.pending && s.pending[id].Rolling? && s.pending[id].pack == p ==>
         p in s.approvals && s.pending[id].index < |s.approvals[p].history|
         && s.approvals[p].history[s.pending[id].index].hashes == s.pending[id].target
  }

  lemma AppendRepeats(h: seq<Event>, e: Event)
    requires RollbacksRepeat(h)
    requires e.deed.Rollback? ==> e.deed.index < |h| && h[e.deed.index].hashes == e.hashes
    ensures RollbacksRepeat(h + [e])
  {
    var h' := h + [e];
    forall i | 0 <= i < |h'| && h'[i].deed.Rollback?
      ensures h'[i].deed.index < i && h'[h'[i].deed.index].hashes == h'[i].hashes
    {
      if i < |h| { assert h'[i] == h[i] && h'[h[i].deed.index] == h[h[i].deed.index]; }
    }
  }

  /** What one action makes of the history of a pack. */
  lemma HistoryGrowth(s: State, a: Action, p: PackId)
    requires Enabled(s, a) && p in s.approvals
    requires a.Atomic? ==> a.op != Remove(p) && a.op != LoadTampered(p)
    ensures var h, h' := s.approvals[p].history, Next(s, a).approvals[p].history;
            || h' == h
            || (exists e :: h' == h + [e] && (e.deed.Rollback? ==>
                  a.EndRollback? && s.pending[a.id].pack == p && s.pending[a.id].index == e.deed.index
                      && s.pending[a.id].target == e.hashes))
  {
    PerformedEffect(s, a);
    var h, h' := s.approvals[p].history, Next(s, a).approvals[p].history;
    if h' != h { assert h' == h + [h'[|h|]]; }
  }

  lemma FaithfulStep(s: State, a: Action, p: PackId)
    requires Enabled(s, a) && Faithful(s, p)
    requires a.Atomic? ==> a.op != Remove(p) && a.op != LoadTampered(p)
    ensures Faithful(Next(s, a), p)
  {
    var t := Next(s, a);
    if p in s.approvals {
      HistoryStep(s, a, p);
      HistoryGrowth(s, a, p);
      var h, h' := s.approvals[p].history, t.approvals[p].history;
      if h' != h {
        var e :| h' == h + [e] && (e.deed.Rollback? ==>
                  a.EndRollback? && s.pending[a.id].pack == p && s.pending[a.id].index == e.deed.index
                      && s.pending[a.id].target == e.hashes);
        AppendRepeats(h, e);
      }
      forall id | id in t.pending && t.pending[id].Rolling? && t.pending[id].pack == p
        ensures t.pending[id].index < |h'| && h'[t.pending[id].index].hashes == t.pending[id].target
      {
        assert id in s.pending ==> t.pending[id] == s.pending[id];
      }
    } else {
      PerformedEffect(s, a);
      assert p in t.approvals ==> t.approvals[p].history == [];
      forall id | id in t.pending && t.pending[id].Rolling? ensures t.pending[id].pack != p {
        assert id in s.pending ==> t.pending[id] == s.pending[id];
      }
    }
  }

  /** As long as the record stays, a rollback event has the hashes of the version it names, however long the check of
      the files took and whatever happened meanwhile. */
  lemma {:induction false} RollbacksFaithful(s: State, acts: seq<Action>, t: State, p: PackId)
    requires Run(s, acts, t) && Keeps(acts, p) && Faithful(s, p)
    ensures Faithful(t, p)
    decreases |acts|
  {
    if acts != [] {
      FaithfulStep(s, acts[0], p);
      RollbacksFaithful(Next(s, acts[0]), acts[1..], t, p);
    }
  }

  // ----------------------------------------------------------- what each step decides

  /** The last event of a record, which also holds its hashes. */
  ghost predicate LastIs(a: Approval, deed: Deed, hashes: Hashes) {
    a.history != [] && a.history[|a.history| - 1] == Event(|a.history|, deed, hashes) && a.fileHashes == hashes
  }

  /** The record is as it was but for its status. */
  ghost predicate OnlyStatus(a: Approval, b: Approval) {
    b.fileHashes == a.fileHashes && b.history == a.history && b.ruleApproved == a.ruleApproved
  }

  /** An approval or a rollback makes a pack approved, with the hashes given and an event that says so; a rejection
      blocks it, with the reason; a change mark makes it modified, as does an update to other hashes, which records
      them. Packs other than the one named stay as they are. */
  lemma EffectExactly(m: Approvals, op: Op)
    ensures var p, t := op.pack, Effect(m, op);
            && (forall q :: q != p ==> (q in t <==> q in m) && (q in m ==> t[q] == m[q]))
            && (p !in m && !op.Scan? && !op.LoadTampered? ==> t == m)
            && (op.Scan? ==> p in t && (if p in m then t == m else t[p].status == INSTALLED && t[p].history == []))
            && (op.LoadTampered? ==> p in t && t[p].status == MODIFIED && t[p].history == [])
            && (op.Remove? ==> p !in t)
    ensures var p, t := op.pack, Effect(m, op);
            p in m && !op.Remove? && !op.LoadTampered? && !op.Scan? ==>
              && p in t
              && (op.Reject? ==> t[p].status == BLOCKED && t[p].rejection == Some(op.reason) && OnlyStatus(m[p], t[p]))
              && (op.MarkModified? ==> t[p].status == MODIFIED && OnlyStatus(m[p], t[p]))
              && (op.ApplyUpdate? && op.hashes == m[p].fileHashes ==> t == m)
              && (op.ApplyUpdate? && op.hashes != m[p].fileHashes ==>
                    t[p].status == MODIFIED && LastIs(t[p], UpdateModified, op.hashes))
    ensures var p, t := op.pack, Effect(m, op);
            p in m ==>
              && (op.DoApprove? && op.current == None ==> t == m)
              && (forall h :: op.DoApprove? && op.current == Some(h) ==>
                    p in t && t[p].status == APPROVED && t[p].rejection == None && LastIs(t[p], Approve, h))
              && (op.Restore? ==>
                    p in t && t[p].status == APPROVED && t[p].rejection == None
                        && LastIs(t[p], Rollback(op.index), op.target))
              && (op.DoApproveRule? ==>
                    if m[p].status == APPROVED && op.isRule
                    then p in t && t[p].status == APPROVED && t[p].ruleApproved
                        && LastIs(t[p], ApproveRule, m[p].fileHashes)
                    else t == m)
  {
  }

  /** A rollback remembers the hashes of the version it was asked for; when it ends it restores them if and only if the
      files are those, and otherwise leaves all records alone. */
  lemma RollbackExactly(s: State, id: nat, p: PackId, index: nat, current: Option<Hashes>)
    requires id !in s.pending && p in s.approvals && index < |s.approvals[p].history|
    ensures var target := s.approvals[p].history[index].hashes;
            var t := Next(s, BeginRollback(id, p, index));
            && t.approvals == s.approvals && Enabled(t, EndRollback(id, current))
            && var u := Next(t, EndRollback(id, current));
               if current == Some(target)
               then p in u.approvals && u.approvals[p].status == APPROVED
                   && LastIs(u.approvals[p], Rollback(index), target)
               else u.approvals == s.approvals
  {
  }

  /** A rollback to a version that is not there does not start. */
  lemma RollbackRefused(s: State, id: nat, p: PackId, index: int)
    requires id !in s.pending && (p !in s.approvals || index < 0 || index >= |s.approvals[p].history|)
    ensures Next(s, BeginRollback(id, p, index)) == s
  {
  }

  // -------------------------------------------------------------------- verification

  datatype Verdict = Yes | NotFound | Blocked | Modified | NotApproved | HashMismatch

  /** The first half of `is_pack_approved_and_verified`, under the lock. */
  function StatusVerdict(m: Approvals, p: PackId): Verdict {
    if p !in m then NotFound
    else
      match m[p].status
      case BLOCKED => Blocked
      case MODIFIED => Modified
      case APPROVED => Yes
      case _ => NotApproved
  }

  /** `verify_hash`: stored hashes, if any, against the files; None if the pack has no directory. */
  predicate HashesAgree(m: Approvals, p: PackId, current: Option<Hashes>) {
    IsCore(p) || (p in m && m[p].fileHashes != map[] && current == Some(m[p].fileHashes))
  }

  /** The two halves look at the records one after the other. */
  function ApprovedAndVerified(before: Approvals, after: Approvals, p: PackId, current: Option<Hashes>): Verdict {
    if IsCore(p) then Yes
    else if StatusVerdict(before, p) != Yes then StatusVerdict(before, p)
    else if HashesAgree(after, p, current) then Yes
    else HashMismatch
  }

  /** Each status has its answer: unknown, blocked and modified packs are refused as such, only approved ones go on to
      the comparison of hashes. */
  lemma StatusVerdictExactly(m: Approvals, p: PackId)
    ensures StatusVerdict(m, p) == NotFound <==> p !in m
    ensures StatusVerdict(m, p) == Blocked <==> p in m && m[p].status == BLOCKED
    ensures StatusVerdict(m, p) == Modified <==> p in m && m[p].status == MODIFIED
    ensures StatusVerdict(m, p) == Yes <==> p in m && m[p].status == APPROVED
    ensures StatusVerdict(m, p) != HashMismatch
  {
  }

  /** A core pack always passes. Any other passes exactly when it was approved at the first look and, at the second,
      its files are exactly those of the last event of its history, which is not empty. */
  lemma YesMeansLastEvent(s: State, p: PackId, acts: seq<Action>, t: State, current: Option<Hashes>)
    requires AllSound(s.approvals) && Run(s, acts, t)
    ensures ApprovedAndVerified(s.approvals, t.approvals, p, current) == Yes <==>
      || "core_" <= p
      || (&& p in s.approvals && s.approvals[p].status == APPROVED
          && p in t.approvals && t.approvals[p].history != []
          && LastHashes(t.approvals[p].history) != map[] && current == Some(LastHashes(t.approvals[p].history)))
  {
    AlwaysSound(s, acts, t);
  }

  /** The last event of the record is a change that nobody has approved since. */
  predicate Unapproved(m: Approvals, p: PackId) {
    p in m && m[p].history != [] && m[p].history[|m[p].history| - 1].deed.UpdateModified?
  }

  /** What a step makes of that, if anything: an update to other hashes brings it about, approvals, rollbacks and the
      loss of the record end it. */
  function Decides(m: Approvals, op: Op, p: PackId): Option<bool> {
    if op.pack != p || !Succeeds(m, op) then None
    else if op.ApplyUpdate? && op.hashes != m[p].fileHashes then Some(true)
    else if op.DoApprove? || op.DoApproveRule? || op.Restore? || op.Remove? || op.LoadTampered? then Some(false)
    else None
  }

  lemma UnapprovedStep(m: Approvals, op: Op, p: PackId)
    ensures var d := Decides(m, op, p); Unapproved(Effect(m, op), p) <==> if d.Some? then d.value else Unapproved(m, p)
  {
  }

  /** Whether the last step of a run that decides is an update to other hashes; `otherwise` if none does. */
  ghost predicate LastUpdated(s: State, acts: seq<Action>, p: PackId, otherwise: bool)
    decreases |acts|
  {
    if acts == [] || !Enabled(s, acts[0]) then otherwise
    else
      var op := Performed(s, acts[0]);
      var d := if op.Some? then Decides(s.approvals, op.value, p) else None;
      LastUpdated(Next(s, acts[0]), acts[1..], p, if d.Some? then d.value else otherwise)
  }

  lemma {:induction false} LastUpdatedIsUnapproved(s: State, acts: seq<Action>, t: State, p: PackId)
    requires Run(s, acts, t)
    ensures Unapproved(t.approvals, p) <==> LastUpdated(s, acts, p, Unapproved(s.approvals, p))
    decreases |acts|
  {
    if acts != [] {
      PerformedEffect(s, acts[0]);
      var op := Performed(s, acts[0]);
      if op.Some? { UnapprovedStep(s.approvals, op.value, p); }
      LastUpdatedIsUnapproved(Next(s, acts[0]), acts[1..], t, p);
    }
  }

  /** The files are those of the last event of the record. */
  predicate MatchesLastEvent(m: Approvals, p: PackId, current: Option<Hashes>) {
    p in m && LastHashes(m[p].history) != map[] && current == Some(LastHashes(m[p].history))
  }

  /** A yes about a pack whose last event approves nothing comes about exactly when, of all that was recorded between
      the two looks, an update to other hashes was last, and the files are those it recorded. */
  lemma StaleExactly(s: State, p: PackId, acts: seq<Action>, t: State, current: Option<Hashes>)
    requires AllSound(s.approvals) && Run(s, acts, t) && !IsCore(p) && p in s.approvals
    requires s.approvals[p].status == APPROVED
    ensures (ApprovedAndVerified(s.approvals, t.approvals, p, current) == Yes && Unapproved(t.approvals, p)) <==>
            LastUpdated(s, acts, p, false) && MatchesLastEvent(t.approvals, p, current)
    ensures ApprovedAndVerified(s.approvals, t.approvals, p, current) == Yes && !Unapproved(t.approvals, p) ==>
            && p in t.approvals && t.approvals[p].history != []
            && var e := t.approvals[p].history[|t.approvals[p].history| - 1];
               Grants(e.deed) && current == Some(e.hashes)
  {
    assert Sound(s.approvals[p]);
    AlwaysSound(s, acts, t);
    LastUpdatedIsUnapproved(s, acts, t, p);
  }

  /** No step updates the record of p. */
  ghost predicate NoUpdate(acts: seq<Action>, p: PackId) {
    forall i :: 0 <= i < |acts| && acts[i].Atomic? ==> !(acts[i].op.ApplyUpdate? && acts[i].op.pack == p)
  }

  lemma {:induction false} NoUpdateNotUpdated(s: State, acts: seq<Action>, t: State, p: PackId)
    requires Run(s, acts, t) && NoUpdate(acts, p)
    ensures !LastUpdated(s, acts, p, false)
    decreases |acts|
  {
    if acts != [] {
      assert acts[0].Atomic? ==> !(acts[0].op.ApplyUpdate? && acts[0].op.pack == p);
      NoUpdateNotUpdated(Next(s, acts[0]), acts[1..], t, p);
    }
  }

  /** Whatever happens between the two looks, as long as no update of the record is among it: a yes means that the last
      event approved the pack, with exactly the files there are. */
  lemma YesMeansApprovedFiles(s: State, p: PackId, acts: seq<Action>, t: State, current: Option<Hashes>)
    requires AllSound(s.approvals) && Run(s, acts, t) && NoUpdate(acts, p)
    requires ApprovedAndVerified(s.approvals, t.approvals, p, current) == Yes && !IsCore(p)
    ensures p in t.approvals && t.approvals[p].history != []
    ensures var e := t.approvals[p].history[|t.approvals[p].history| - 1]; Grants(e.deed) && current == Some(e.hashes)
  {
    YesMeansLastEvent(s, p, acts, t, current);
    NoUpdateNotUpdated(s, acts, t, p);
    StaleExactly(s, p, acts, t, current);
  }

  /** An update of the record between the two looks can be answered with yes: the pack is then marked as modified. */
  lemma StaleYes(p: PackId, h: Hashes, h': Hashes)
    requires !IsCore(p) && h != h' && h' != map[]
    ensures var m := map[p := Approved(Fresh(INSTALLED), h, Approve)];
            var m' := Effect(m, ApplyUpdate(p, h'));
            && AllSound(m) && m'[p].status == MODIFIED && ApprovedAndVerified(m, m', p, Some(h')) == Yes
  {
    RecordSound(Fresh(INSTALLED).(status := APPROVED, fileHashes := h, rejection := None), Approve);
  }

  // ------------------------------------------------------------------------ blocking

  /** A blocked pack stays blocked under every step but an approval, a rollback, a change mark, an update to other
      hashes, and the loss of its record. */
  lemma BlockedUntil(m: Approvals, op: Op, p: PackId)
    requires p in m && m[p].status == BLOCKED
    ensures p in Effect(m, op) && Effect(m, op)[p].status == BLOCKED <==>
      !(op.pack == p && (|| (op.DoApprove? && op.current.Some?) || op.Restore? || op.MarkModified? || op.Remove?
          || op.LoadTampered?
                         || (op.ApplyUpdate? && op.hashes != m[p].fileHashes)))
  {
  }

  /** The development mode does not start on a blocked pack; but once it has looked, it approves whatever it finds, a
      pack that was rejected in between as well, if and only if the directory is there. */
  lemma AutoApproveAndBlocked(s: State, id: nat, p: PackId, isDev: bool, current: Option<Hashes>)
    requires p in s.approvals && s.approvals[p].status == BLOCKED
    ensures id !in s.pending ==> Next(s, BeginAuto(id, p, isDev)) == s
    ensures id in s.pending && s.pending[id] == Auto(p) ==>
      Next(s, EndAuto(id, current)).approvals[p].status == if current.Some? then APPROVED else BLOCKED
  {
  }

  // ---------------------------------------------------------------- detailed comparison

  const CRITICAL_FILES := {"backend/ecosystem.json", "backend/permissions.json", "backend/routes.json"}

  predicate IsCriticalPath(path: string) {
    || path in CRITICAL_FILES
    || "backend/flows/" <= path || "backend/lib/" <= path || "backend/components/" <= path
  }

  predicate InBlocks(path: string) { "blocks/" <= path }

  ghost function Removed(stored: Hashes, current: Hashes): set<string> { stored.Keys - current.Keys }

  ghost function Added(stored: Hashes, current: Hashes): set<string> { current.Keys - stored.Keys }

  ghost function Changed(stored: Hashes, current: Hashes): set<string> {
    set f | f in stored && f in current && stored[f] != current[f]
  }

  /** A file went away, a critical one changed, or one appeared outside `blocks/`. */
  ghost predicate CriticallyChanged(stored: Hashes, current: Hashes) {
    || Removed(stored, current) != {}
    || (exists f :: f in Changed(stored, current) && IsCriticalPath(f))
    || (exists f :: f in Added(stored, current) && !InBlocks(f))
  }

  /** Files are unchanged exactly when none was removed, added or changed. */
  lemma NoDifferences(stored: Hashes, current: Hashes)
    ensures stored == current <==>
      Removed(stored, current) == {} && Added(stored, current) == {} && Changed(stored, current) == {}
  {
    if Removed(stored, current) == {} && Added(stored, current) == {} && Changed(stored, current) == {} {
      forall f | f in stored ensures f in current && current[f] == stored[f] {
        assert f !in Removed(stored, current) && f !in Changed(stored, current);
      }
      forall f | f in current ensures f in stored { assert f !in Added(stored, current); }
    }
  }

  /** A change is critical when a file is gone, when one that is not under `blocks/` is new, or when one of the three
      descriptions or a flow, library or component of the backend differs. */
  lemma CriticalExactly(stored: Hashes, current: Hashes)
    ensures CriticallyChanged(stored, current) <==>
      || (exists f :: f in stored && f !in current)
      || (exists f :: f in current && f !in stored && !("blocks/" <= f))
      || (exists f :: f in stored && f in current && stored[f] != current[f]
            && (f in ["backend/ecosystem.json", "backend/permissions.json", "backend/routes.json"]
                || "backend/flows/" <= f || "backend/lib/" <= f || "backend/components/" <= f))
  {
    if f :| f in stored && f !in current { assert f in Removed(stored, current); }
    if f :| f in current && f !in stored && !("blocks/" <= f) { assert f in Added(stored, current); }
    forall f | f in stored && f in current && stored[f] != current[f]
      ensures IsCriticalPath(f) <==>
              || f in ["backend/ecosystem.json", "backend/permissions.json", "backend/routes.json"]
              || "backend/flows/" <= f || "backend/lib/" <= f || "backend/components/" <= f
    {
      CriticalPathExactly(f);
      assert f in Changed(stored, current);
    }
    if Removed(stored, current) != {} { var f :| f in Removed(stored, current); }
  }

  lemma CriticalPathExactly(f: string)
    ensures IsCriticalPath(f) <==>
            || f in ["backend/ecosystem.json", "backend/permissions.json", "backend/routes.json"]
            || "backend/flows/" <= f || "backend/lib/" <= f || "backend/components/" <= f
  {
  }
}
