/** Which definition of a flow wins when several files define it (flow_loader.py:376-618). */
module FlowOverrides {
  import opened Flows
  import opened Orders

  datatype Source = Official | Shared | Pack | LocalPack

  /** A flow file as `load_flow_file` leaves it, in loading order. */
  datatype File = Parsed(id: string, flow: string) | Broken

  datatype Entry = Entry(source: Source, flow: string)

  type Loaded = map<string, Entry>

  /** The flow files of one pack and whether it is approved and verified. */
  datatype PackFlows = PackFlows(approved: bool, files: seq<File>)

  // ------------------------------------------------------------------- the rules

  /** A flow already loaded from `existing` is not replaced by one from `source`. */
  predicate Refuses(existing: Source, source: Source) {
    match source
    case Official => true
    case Shared => existing.Official?
    case Pack => existing.Official? || existing.Shared?
    case LocalPack => !existing.LocalPack?
  }

  function Put(m: Loaded, source: Source, f: File): Loaded {
    if f.Broken? || (f.id in m && Refuses(m[f.id].source, source)) then m else m[f.id := Entry(source, f.flow)]
  }

  function PutAll(m: Loaded, source: Source, files: seq<File>): Loaded {
    if files == [] then m else Put(PutAll(m, source, files[..|files| - 1]), source, files[|files| - 1])
  }

  function PutPacks(m: Loaded, packs: seq<PackFlows>): Loaded {
    if packs == [] then m
    else
      var n := |packs| - 1;
      var before := PutPacks(m, packs[..n]);
      if packs[n].approved then PutAll(before, Pack, packs[n].files) else before
  }

  /** `local` is None when the mode is off or the local pack is not approved. */
  function LoadAll(official: seq<File>, shared: seq<File>, packs: seq<PackFlows>, local: Option<seq<File>>): Loaded {
    var m := PutPacks(PutAll(PutAll(map[], Official, official), Shared, shared), packs);
    if local.Some? then PutAll(m, LocalPack, local.value) else m
  }

  // ------------------------------------------------------------------- the winner

  function First(files: seq<File>, id: string): Option<string> {
    if files == [] then None
    else
      var before := First(files[..|files| - 1], id);
      var f := files[|files| - 1];
      if before.Some? then before else if f.Parsed? && f.id == id then Some(f.flow) else None
  }

  function Last(files: seq<File>, id: string): Option<string> {
    if files == [] then None
    else
      var f := files[|files| - 1];
      if f.Parsed? && f.id == id then Some(f.flow) else Last(files[..|files| - 1], id)
  }

  /** The files of the approved packs, one pack after the other. */
  function ApprovedFiles(packs: seq<PackFlows>): seq<File> {
    if packs == [] then []
    else ApprovedFiles(packs[..|packs| - 1]) + if packs[|packs| - 1].approved then packs[|packs| - 1].files else []
  }

  function At(m: Loaded, id: string): Option<Entry> { if id in m then Some(m[id]) else None }

  function From(source: Source, flow: Option<string>, otherwise: Option<Entry>): Option<Entry> {
    if flow.Some? then Some(Entry(source, flow.value)) else otherwise
  }

  /** The first official definition; without one the last shared one; then the last of the approved packs; then the
      last of the local pack. */
  function Winner(official: seq<File>, shared: seq<File>, packs: seq<PackFlows>, local: Option<seq<File>>,
                  id: string): Option<Entry> {
    From(Official, First(official, id),
      From(Shared, Last(shared, id),
        From(Pack, Last(ApprovedFiles(packs), id),
          From(LocalPack, if local.Some? then Last(local.value, id) else None, None))))
  }

  lemma {:induction false} OfficialKeepsFirst(files: seq<File>, id: string)
    ensures At(PutAll(map[], Official, files), id) == From(Official, First(files, id), None)
    decreases |files|
  {
    if files != [] { OfficialKeepsFirst(files[..|files| - 1], id); }
  }

  /** From any other source the last definition counts, where nothing of higher rank is in the way. */
  lemma {:induction false} OthersKeepLast(m: Loaded, source: Source, files: seq<File>, id: string)
    requires !source.Official?
    ensures At(PutAll(m, source, files), id)
         == if id in m && Refuses(m[id].source, source) then Some(m[id]) else From(source, Last(files, id), At(m, id))
    decreases |files|
  {
    if files != [] { OthersKeepLast(m, source, files[..|files| - 1], id); }
  }

  lemma {:induction false} PutAllConcat(m: Loaded, source: Source, a: seq<File>, b: seq<File>)
    ensures PutAll(PutAll(m, source, a), source, b) == PutAll(m, source, a + b)
    decreases |b|
  {
    if b == [] {
      assert a + b == a;
    } else {
      var n := |b| - 1;
      assert (a + b)[..|a + b| - 1] == a + b[..n] && (a + b)[|a + b| - 1] == b[n];
      PutAllConcat(m, source, a, b[..n]);
    }
  }

  lemma {:induction false} PacksAreOneList(m: Loaded, packs: seq<PackFlows>)
    ensures PutPacks(m, packs) == PutAll(m, Pack, ApprovedFiles(packs))
    decreases |packs|
  {
    if packs != [] {
      var n := |packs| - 1;
      PacksAreOneList(m, packs[..n]);
      PutAllConcat(m, Pack, ApprovedFiles(packs[..n]), packs[n].files);
      assert ApprovedFiles(packs[..n]) + [] == ApprovedFiles(packs[..n]);
    }
  }

  /** Loading all flows gives every id its winner: official before shared before packs before the local pack, and
      nothing from a pack that is not approved. */
  lemma LoadedIsWinner(official: seq<File>, shared: seq<File>, packs: seq<PackFlows>, local: Option<seq<File>>,
                       id: string)
    ensures At(LoadAll(official, shared, packs, local), id) == Winner(official, shared, packs, local, id)
  {
    var m1 := PutAll(map[], Official, official);
    var m2 := PutAll(m1, Shared, shared);
    var m3 := PutPacks(m2, packs);
    OfficialKeepsFirst(official, id);
    OthersKeepLast(m1, Shared, shared, id);
    PacksAreOneList(m2, packs);
    OthersKeepLast(m2, Pack, ApprovedFiles(packs), id);
    if local.Some? { OthersKeepLast(m3, LocalPack, local.value, id); }
  }

  // ------------------------------------------------------------------- the object

  class FlowLoader {
    var loadedFlows: Loaded

    constructor ()
      ensures loadedFlows == map[]
    {
      loadedFlows := map[];
    }

    method LoadFiles(source: Source, files: seq<File>)
      modifies this
      ensures loadedFlows == PutAll(old(loadedFlows), source, files)
    {
      for i := 0 to |files|
        invariant loadedFlows == PutAll(old(loadedFlows), source, files[..i])
      {
        assert files[..i + 1][..i] == files[..i];
        var f := files[i];
        if f.Broken? { continue; }
        if f.id in loadedFlows && Refuses(loadedFlows[f.id].source, source) { continue; }
        loadedFlows := loadedFlows[f.id := Entry(source, f.flow)];
      }
      TakeAll(files);
    }

    method LoadPackFlows(packs: seq<PackFlows>)
      modifies this
      ensures loadedFlows == PutPacks(old(loadedFlows), packs)
    {
      for i := 0 to |packs|
        invariant loadedFlows == PutPacks(old(loadedFlows), packs[..i])
      {
        assert packs[..i + 1][..i] == packs[..i];
        if !packs[i].approved { continue; }
        LoadFiles(Pack, packs[i].files);
      }
      TakeAll(packs);
    }

    /** Whatever was loaded before is forgotten. */
    method LoadAllFlows(official: seq<File>, shared: seq<File>, packs: seq<PackFlows>, local: Option<seq<File>>)
      modifies this
      ensures forall id :: At(loadedFlows, id) == Winner(official, shared, packs, local, id)
    {
      loadedFlows := map[];
      LoadFiles(Official, official);
      LoadFiles(Shared, shared);
      LoadPackFlows(packs);
      if local.Some? { LoadFiles(LocalPack, local.value); }
      forall id ensures At(loadedFlows, id) == Winner(official, shared, packs, local, id) {
        LoadedIsWinner(official, shared, packs, local, id);
      }
    }
  }
}
