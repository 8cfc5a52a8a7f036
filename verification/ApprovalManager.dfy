/** The approval manager as an object (approval_manager.py): its methods take the steps of `Approvals`. */
module ApprovalManager {
  import opened Approvals
  import opened Flows
  import opened Orders

  datatype Detailed = Detailed(valid: bool, criticalChanged: bool, changed: seq<string>, added: seq<string>,
                               removed: seq<string>)

  /** The files of a pack can be compared with hashes stored for it. */
  predicate Comparable(m: Approvals, p: PackId, current: Option<Hashes>) {
    p in m && m[p].fileHashes != map[] && current.Some?
  }

  lemma SortedMembers(s: set<string>)
    ensures forall f :: f in SortedSet(s) <==> f in s
    ensures SortedSet(s) == [] <==> s == {}
  {
  }

  class ApprovalManager {
    var approvals: Approvals

    constructor ()
      ensures approvals == map[]
    {
      approvals := map[];
    }

    method Scan(pack: PackId)
      modifies this
      ensures approvals == Effect(old(approvals), Op.Scan(pack))
    {
      if pack !in approvals { approvals := approvals[pack := Fresh(INSTALLED)]; }
    }

    method Approve(pack: PackId, current: Option<Hashes>) returns (ok: bool)
      modifies this
      ensures ok == Succeeds(old(approvals), DoApprove(pack, current))
      ensures approvals == Effect(old(approvals), DoApprove(pack, current))
    {
      if pack !in approvals || current.None? { return false; }
      var a := approvals[pack];
      a := a.(status := APPROVED, fileHashes := current.value, rejection := None);
      a := a.(history := a.history + [Event(|a.history| + 1, Deed.Approve, current.value)]);
      approvals := approvals[pack := a];
      return true;
    }

    method ApproveRule(pack: PackId, isRule: bool) returns (ok: bool)
      modifies this
      ensures ok == Succeeds(old(approvals), DoApproveRule(pack, isRule))
      ensures approvals == Effect(old(approvals), DoApproveRule(pack, isRule))
    {
      if pack !in approvals || approvals[pack].status != APPROVED || !isRule { return false; }
      var a := approvals[pack].(ruleApproved := true);
      a := a.(history := a.history + [Event(|a.history| + 1, Deed.ApproveRule, a.fileHashes)]);
      approvals := approvals[pack := a];
      return true;
    }

    method Reject(pack: PackId, reason: string) returns (ok: bool)
      modifies this
      ensures ok == (pack in old(approvals))
      ensures approvals == Effect(old(approvals), Op.Reject(pack, reason))
    {
      if pack !in approvals { return false; }
      approvals := approvals[pack := approvals[pack].(status := BLOCKED, rejection := Some(reason))];
      return true;
    }

    method MarkModified(pack: PackId)
      modifies this
      ensures approvals == Effect(old(approvals), Op.MarkModified(pack))
    {
      if pack in approvals { approvals := approvals[pack := approvals[pack].(status := MODIFIED)]; }
    }

    /** Same hashes keep the record, and with it a rejection. */
    method ApplyUpdate(pack: PackId, newHashes: Hashes) returns (status: Option<Status>)
      modifies this
      ensures approvals == Effect(old(approvals), Op.ApplyUpdate(pack, newHashes))
      ensures status == if pack in approvals then Some(approvals[pack].status) else None
    {
      if pack !in approvals { return None; }
      var a := approvals[pack];
      if a.fileHashes == newHashes { return Some(a.status); }
      a := a.(status := MODIFIED, fileHashes := newHashes);
      a := a.(history := a.history + [Event(|a.history| + 1, UpdateModified, newHashes)]);
      approvals := approvals[pack := a];
      return Some(MODIFIED);
    }

    method RemoveApproval(pack: PackId) returns (ok: bool)
      modifies this
      ensures ok == (pack in old(approvals))
      ensures approvals == Effect(old(approvals), Remove(pack))
    {
      ok := pack in approvals;
      approvals := approvals - {pack};
    }

    /** A rollback nothing interferes with: it succeeds exactly when the files are those of the version, and then
        approves them. */
    method RollbackToVersion(pack: PackId, index: int, current: Option<Hashes>) returns (ok: bool)
      modifies this
      ensures ok <==>
              CanRollBack(old(approvals), pack, index) && current == Some(old(approvals)[pack].history[index].hashes)
      ensures ok ==> approvals == Effect(old(approvals), Restore(pack, index, current.value))
      ensures !ok ==> approvals == old(approvals)
    {
      if pack !in approvals || index < 0 || index >= |approvals[pack].history| { return false; }
      var target := approvals[pack].history[index].hashes;
      if current.None? || current.value != target { return false; }
      var a := approvals[pack].(status := APPROVED, fileHashes := target, rejection := None);
      a := a.(history := a.history + [Event(|a.history| + 1, Rollback(index), target)]);
      approvals := approvals[pack := a];
      return true;
    }

    method AutoApproveIfDev(pack: PackId, isDev: bool, current: Option<Hashes>) returns (ok: bool)
      modifies this
      ensures approvals == if MayAutoApprove(old(approvals), pack, isDev)
                           then Effect(old(approvals), DoApprove(pack, current))
                           else old(approvals)
      ensures ok <==> isDev && pack in approvals && approvals[pack].status == APPROVED
      ensures !isDev || (pack in old(approvals) && old(approvals)[pack].status == BLOCKED) ==>
              approvals == old(approvals)
    {
      if !isDev || pack !in approvals { return false; }
      if approvals[pack].status == APPROVED { return true; }
      if approvals[pack].status == BLOCKED { return false; }
      ok := Approve(pack, current);
    }

    method VerifyHash(pack: PackId, current: Option<Hashes>) returns (ok: bool)
      ensures ok <==> HashesAgree(approvals, pack, current)
    {
      if IsCore(pack) { return true; }
      if !Comparable(approvals, pack, current) { return false; }
      var stored, files := approvals[pack].fileHashes, current.value;
      if files.Keys != stored.Keys { return false; }
      var todo := stored.Keys;
      while todo != {}
        invariant todo <= stored.Keys
        invariant forall f :: f in stored && f !in todo ==> files[f] == stored[f]
        decreases |todo|
      {
        var f :| f in todo;
        if files[f] != stored[f] { return false; }
        todo := todo - {f};
      }
      assert files == stored;
      return true;
    }

    /** Agrees with `VerifyHash`, says which files differ, and whether that is critical. */
    method VerifyHashDetailed(pack: PackId, current: Option<Hashes>) returns (r: Detailed)
      ensures r.valid <==> HashesAgree(approvals, pack, current)
      ensures IsCore(pack) ==> r == Detailed(true, false, [], [], [])
      ensures !IsCore(pack) && !Comparable(approvals, pack, current) ==> r == Detailed(false, true, [], [], [])
      ensures !IsCore(pack) && Comparable(approvals, pack, current) ==>
        var stored := approvals[pack].fileHashes;
        && r.changed == SortedSet(Changed(stored, current.value))
        && r.added == SortedSet(Added(stored, current.value))
        && r.removed == SortedSet(Removed(stored, current.value))
        && (r.criticalChanged <==> CriticallyChanged(stored, current.value))
    {
      if IsCore(pack) { return Detailed(true, false, [], [], []); }
      if !Comparable(approvals, pack, current) { return Detailed(false, true, [], [], []); }
      r := Compare(approvals[pack].fileHashes, current.value);
      NoDifferences(approvals[pack].fileHashes, current.value);
    }

    static method Compare(stored: Hashes, files: Hashes) returns (r: Detailed)
      ensures r.changed == SortedSet(Changed(stored, files))
      ensures r.added == SortedSet(Added(stored, files)) && r.removed == SortedSet(Removed(stored, files))
      ensures r.criticalChanged <==> CriticallyChanged(stored, files)
      ensures r.valid <==> Removed(stored, files) == {} && Added(stored, files) == {} && Changed(stored, files) == {}
    {
      var removed := SortedList(stored.Keys - files.Keys);
      var added := SortedList(files.Keys - stored.Keys);
      var changed := SortedList(set f | f in stored && f in files && stored[f] != files[f]);
      SortedMembers(Removed(stored, files));
      SortedMembers(Added(stored, files));
      SortedMembers(Changed(stored, files));
      var critical := removed != [];
      if !critical { critical := AnyCritical(changed); }
      if !critical { critical := AnyOutsideBlocks(added); }
      r := Detailed(removed == [] && added == [] && changed == [], critical, changed, added, removed);
    }

    static method AnyCritical(files: seq<string>) returns (found: bool)
      ensures found <==> exists f :: f in files && IsCriticalPath(f)
    {
      for i := 0 to |files|
        invariant forall k :: 0 <= k < i ==> !IsCriticalPath(files[k])
      {
        if IsCriticalPath(files[i]) { return true; }
      }
      return false;
    }

    static method AnyOutsideBlocks(files: seq<string>) returns (found: bool)
      ensures found <==> exists f :: f in files && !InBlocks(f)
    {
      for i := 0 to |files|
        invariant forall k :: 0 <= k < i ==> InBlocks(files[k])
      {
        if !InBlocks(files[i]) { return true; }
      }
      return false;
    }
  }
}
