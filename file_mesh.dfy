/**
 * master/file_mesh.js: the master's `FileMesh`, which keeps the last file index each node
 * reported (`nodesData`), derives the global mesh from them, lists the files, and runs the
 * periodic correctness validation that repairs replicas. Replies to metadata queries arrive
 * as later `PushNodeData` calls; the requests a repair sends are returned, not delivered.
 */
module ReplicationEngine {
  import opened Dicts
  import opened Records
  import opened MeshBuild
  import opened NodeRegistry
  import opened Repair

  /** One element of `getFileList()`. `name` is `meta.name`, which is `undefined` when the meta has none. */
  datatype Listing = Listing(id: FileId, nodes: seq<NodeId>, name: Option<string>, info: FileRecord)

  /** The file is listed: its first replica is "live" and carries no deletion date. */
  function Listed(mesh: Dict<MeshEntry>): FileId -> bool {
    f => f in mesh.vals && mesh.vals[f].nodes.keys != [] && mesh.vals[f].nodes.keys[0] in mesh.vals[f].nodes.vals
      && var first := mesh.vals[f].nodes.vals[mesh.vals[f].nodes.keys[0]];
      first.status == "live" && !TruthyNumber(first.dateDeleted)
  }

  /** The listing of a file: its id, its holders, its meta's name and the first replica's record. */
  function ListingOf(mesh: Dict<MeshEntry>, f: FileId): Listing
    requires Listed(mesh)(f)
  {
    var e := mesh.vals[f];
    Listing(f, e.nodes.keys, e.meta.Get("name"), e.nodes.vals[e.nodes.keys[0]])
  }

  /** The listings of the listed files among `ks`, in order. */
  function FileList(mesh: Dict<MeshEntry>, ks: seq<FileId>): seq<Listing> {
    if ks == [] then []
    else
      var f := ks[|ks| - 1];
      FileList(mesh, ks[..|ks| - 1]) + if Listed(mesh)(f) then [ListingOf(mesh, f)] else []
  }

  /** The file list holds one listing per listed file, in order, built from that file's entry. */
  lemma {:induction false} FileListSpec(mesh: Dict<MeshEntry>, ks: seq<FileId>)
    ensures |FileList(mesh, ks)| == |Filter(ks, Listed(mesh))|
    ensures forall i | 0 <= i < |FileList(mesh, ks)| ::
      Listed(mesh)(Filter(ks, Listed(mesh))[i]) && FileList(mesh, ks)[i] == ListingOf(mesh, Filter(ks, Listed(mesh))[i])
  {
    if ks != [] {
      var n := |ks| - 1;
      FileListSpec(mesh, ks[..n]);
      FilterStep(ks, n, Listed(mesh));
      assert ks[..n + 1] == ks;
    }
  }

  /** The files listed, in mesh order. */
  function ListedIds(mesh: Dict<MeshEntry>): seq<FileId> {
    Filter(mesh.keys, Listed(mesh))
  }

  /**
   * Exactly the files whose first replica is live and not marked deleted are listed, each
   * once, in mesh order; a listing names all holders and the meta's name.
   */
  lemma ListedExactly(mesh: Dict<MeshEntry>)
    requires MeshValid(mesh)
    ensures Distinct(ListedIds(mesh))
    ensures forall f :: f in ListedIds(mesh) <==>
      f in mesh.vals && mesh.vals[f].nodes.vals[mesh.vals[f].nodes.keys[0]].status == "live"
      && !TruthyNumber(mesh.vals[f].nodes.vals[mesh.vals[f].nodes.keys[0]].dateDeleted)
  {
    FilterMembers(mesh.keys, Listed(mesh));
    FilterDistinct(mesh.keys, Listed(mesh));
  }

  // ---------------------------------------------------------------- requestMeta's sweep

  /** Whether `n` is registered and dead. */
  function DeadIn(reg: Dict<NodeState>): NodeId -> bool {
    n => n in reg.vals && !reg.vals[n].alive
  }

  /** `nodesData` after the dead nodes among `ns`, in order, were recorded as holding nothing. */
  function ClearedDead(nd: Dict<Snapshot>, reg: Dict<NodeState>, ns: seq<NodeId>): (r: Dict<Snapshot>)
    ensures nd.Valid() ==> r.Valid()
  {
    if ns == [] then nd
    else
      var prev := ClearedDead(nd, reg, ns[..|ns| - 1]);
      var n := ns[|ns| - 1];
      if DeadIn(reg)(n) then prev.Put(n, Some(EmptyDict())) else prev
  }

  /**
   * `requestMeta`'s loop has visited `ks[..i]` of the registry `reg`, starting from the indexes
   * `nd0` and the mesh `mesh0`: the dead nodes' indexes are cleared, the mesh was rebuilt if
   * any was, and the live nodes are queued for a query.
   */
  ghost predicate SweptUpTo(nd0: Dict<Snapshot>, mesh0: Dict<MeshEntry>, reg: Dict<NodeState>, ks: seq<NodeId>, i: int,
                            nd: Dict<Snapshot>, mesh: Dict<MeshEntry>, queried: seq<NodeId>)
    requires 0 <= i <= |ks|
  {
    && nd == ClearedDead(nd0, reg, ks[..i])
    && mesh == (if Filter(ks[..i], DeadIn(reg)) == [] then mesh0 else BuildMesh(nd))
    && queried == Filter(ks[..i], IsAlive(reg))
  }

  /** Visiting the next node: a dead one has its index cleared and the mesh rebuilt, a live one is queued. */
  lemma SweptStep(nd0: Dict<Snapshot>, mesh0: Dict<MeshEntry>, reg: Dict<NodeState>, ks: seq<NodeId>, i: int,
                  nd: Dict<Snapshot>, mesh: Dict<MeshEntry>, queried: seq<NodeId>,
                  nd': Dict<Snapshot>, mesh': Dict<MeshEntry>, queried': seq<NodeId>)
    requires 0 <= i < |ks| && ks[i] in reg.vals
    requires SweptUpTo(nd0, mesh0, reg, ks, i, nd, mesh, queried)
    requires !reg.vals[ks[i]].alive ==> nd' == nd.Put(ks[i], Some(EmptyDict())) && mesh' == BuildMesh(nd') && queried' == queried
    requires reg.vals[ks[i]].alive ==> nd' == nd && mesh' == mesh && queried' == queried + [ks[i]]
    ensures SweptUpTo(nd0, mesh0, reg, ks, i + 1, nd', mesh', queried')
  {
    assert ks[..i + 1][..i] == ks[..i];
    FilterStep(ks, i, DeadIn(reg));
    FilterStep(ks, i, IsAlive(reg));
  }

  /**
   * A dead node among `ns` ends with an empty index; every other node keeps the index it had
   * (or stays absent).
   */
  lemma {:induction false} ClearedDeadEffect(nd: Dict<Snapshot>, reg: Dict<NodeState>, ns: seq<NodeId>, n: NodeId)
    ensures var r := ClearedDead(nd, reg, ns);
      && (n in ns && DeadIn(reg)(n) ==> n in r.vals && r.vals[n] == Some(EmptyDict()))
      && (!(n in ns && DeadIn(reg)(n)) ==> (n in r.vals <==> n in nd.vals) && (n in nd.vals ==> r.vals[n] == nd.vals[n]))
  {
    if ns != [] {
      var init := ns[..|ns| - 1];
      ClearedDeadEffect(nd, reg, init, n);
      assert ns == init + [ns[|ns| - 1]];
    }
  }

  /** Clearing keeps every reported index well formed. */
  lemma {:induction false} ClearedDeadSnapshots(nd: Dict<Snapshot>, reg: Dict<NodeState>, ns: seq<NodeId>)
    requires SnapshotsValid(nd)
    ensures SnapshotsValid(ClearedDead(nd, reg, ns))
  {
    if ns != [] {
      ClearedDeadSnapshots(nd, reg, ns[..|ns| - 1]);
    }
  }

  /** After the dead nodes' indexes are cleared, the rebuilt mesh lists no dead node as a holder. */
  lemma NoDeadHolders(nd: Dict<Snapshot>, reg: Dict<NodeState>, f: FileId, n: NodeId)
    requires nd.Valid() && SnapshotsValid(nd)
    requires n in reg.keys && DeadIn(reg)(n)
    ensures var mesh := BuildMesh(ClearedDead(nd, reg, reg.keys));
      !(f in mesh.vals && n in mesh.vals[f].nodes.vals)
  {
    var cleared := ClearedDead(nd, reg, reg.keys);
    ClearedDeadEffect(nd, reg, reg.keys, n);
    ClearedDeadSnapshots(nd, reg, reg.keys);
    BuildMeshRecords(cleared, f, n);
  }

  // ---------------------------------------------------------------- the validation pass

  /** Every file's holders are registered nodes. */
  ghost predicate HoldersRegistered(mesh: Dict<MeshEntry>, reg: Dict<NodeState>) {
    forall f | f in mesh.vals :: Registered(reg, mesh.vals[f].nodes.keys)
  }

  /** Every FileQuery answer carries content. */
  ghost predicate AnswersWithContent(answers: map<FileId, map<NodeId, FileView>>) {
    forall f | f in answers :: WithContent(answers[f])
  }

  /** The answers to FileQuery for file `f`: none when no holder answered. */
  function AnswersFor(answers: map<FileId, map<NodeId, FileView>>, f: FileId): map<NodeId, FileView> {
    if f in answers then answers[f] else map[]
  }

  /** Whether the validation pass runs a repair for `f`. */
  ghost function NeedsRepair(mesh: Dict<MeshEntry>, reg: Dict<NodeState>, now: int): FileId -> bool {
    f => f in mesh.vals && mesh.vals[f].nodes.Valid() && Registered(reg, mesh.vals[f].nodes.keys)
      && IsRepair(Decide(mesh.vals[f], reg, now))
  }

  /**
   * The mesh once the pass has visited the files `done`: a visited file is locked unless it
   * was `repaired` (which releases the lock again); nothing else differs.
   */
  function PartialLock(mesh: Dict<MeshEntry>, done: seq<FileId>, repaired: FileId -> bool): (r: Dict<MeshEntry>)
    ensures r.keys == mesh.keys && r.vals.Keys == mesh.vals.Keys
    ensures forall f | f in r.vals :: r.vals[f] == mesh.vals[f].(locked := r.vals[f].locked)
    ensures MeshValid(mesh) ==> MeshValid(r)
  {
    Dict(mesh.keys, map f | f in mesh.vals :: if f in done then mesh.vals[f].(locked := !repaired(f)) else mesh.vals[f])
  }

  /** The request a repair of `f` sends, or why it sends none, as the procedure chosen for it determines. */
  ghost predicate RepairFor(f: FileId, e: MeshEntry, reg: Dict<NodeState>, now: int,
                            answers: map<NodeId, FileView>, d: Dispatch)
    requires Held(e) && Registered(reg, e.nodes.keys) && WithContent(answers)
  {
    match Decide(e, reg, now)
    case AddReplica => d == AddProcedure(e, reg, answers)
    case RemoveReplica => d == DelProcedure(f, e, reg)
    case FixMismatch(_) =>
      && (exists plan :: FixPlanned(e, plan) && d == FixDispatch(plan, answers))
      && d != NoRequest
      && (d.Send? ==> d.target in e.nodes.keys && d.request.Update?)
      && (d.Send? ==>
            (d.request.update.data.None? <==>
              && (forall k | k in e.nodes.keys :: OrZero(e.nodes.vals[k].version) == OrZero(First(e).version))
              && exists k | k in e.nodes.keys :: e.nodes.vals[k].metaCRC != First(e).metaCRC))
    case _ => false
  }

  /** The branches of one visit to an unlocked file, in the order the loop body tests them. */
  lemma VisitDecision(f: FileId, e: MeshEntry, reg: Dict<NodeState>, now: int, answers: map<NodeId, FileView>)
    requires Held(e) && Registered(reg, e.nodes.keys) && WithContent(answers) && !e.locked
    ensures var n, warm := |e.nodes.keys|, now - OldestStart(reg, e.nodes.keys) < WarmUp && |e.nodes.keys| < Replicas;
      && (warm ==> !IsRepair(Decide(e, reg, now)))
      && (!warm && n > Replicas ==> IsRepair(Decide(e, reg, now)) && RepairFor(f, e, reg, now, answers, DelProcedure(f, e, reg)))
      && (!warm && n < Replicas ==> IsRepair(Decide(e, reg, now)) && RepairFor(f, e, reg, now, answers, AddProcedure(e, reg, answers)))
      && (n == Replicas ==> (IsRepair(Decide(e, reg, now)) <==> FirstMismatch(First(e), e.nodes.vals, e.nodes.keys[1..]).Some?))
  {
  }

  /** What `FixingProcedureFix` promises is the repair of a file whose three replicas disagree. */
  lemma FixRepair(f: FileId, e: MeshEntry, reg: Dict<NodeState>, now: int, answers: map<NodeId, FileView>, d: Dispatch)
    requires Held(e) && Registered(reg, e.nodes.keys) && WithContent(answers) && !e.locked && |e.nodes.keys| == Replicas
    requires FirstMismatch(First(e), e.nodes.vals, e.nodes.keys[1..]).Some?
    requires exists plan :: FixPlanned(e, plan) && d == FixDispatch(plan, answers)
    requires d == NoRequest <==> forall k | k in e.nodes.keys :: Agrees(First(e), e.nodes.vals[k])
    requires d.Send? ==> d.target in e.nodes.keys && d.request.Update?
    requires d.Send? ==>
      (d.request.update.data.None? <==>
        && (forall k | k in e.nodes.keys :: OrZero(e.nodes.vals[k].version) == OrZero(First(e).version))
        && exists k | k in e.nodes.keys :: e.nodes.vals[k].metaCRC != First(e).metaCRC)
    ensures RepairFor(f, e, reg, now, answers, d)
  {
    AllAgree(e);
  }

  /**
   * `repairs` lists, in order, the files among `done` the pass repaired, each with the
   * request its procedure sent (or the reason it sent none).
   */
  ghost predicate RepairsUpTo(mesh: Dict<MeshEntry>, done: seq<FileId>, reg: Dict<NodeState>, now: int,
                              answers: map<FileId, map<NodeId, FileView>>, repairs: seq<(FileId, Dispatch)>)
    requires MeshValid(mesh) && HoldersRegistered(mesh, reg) && AnswersWithContent(answers)
  {
    var ids := Filter(done, NeedsRepair(mesh, reg, now));
    && |repairs| == |ids|
    && forall j | 0 <= j < |repairs| ::
      && repairs[j].0 == ids[j] && ids[j] in mesh.vals
      && RepairFor(ids[j], mesh.vals[ids[j]], reg, now, AnswersFor(answers, ids[j]), repairs[j].1)
  }

  /** A visited file that needs no repair adds nothing to the repairs. */
  lemma RepairsSkip(mesh: Dict<MeshEntry>, ks: seq<FileId>, i: int, reg: Dict<NodeState>, now: int,
                    answers: map<FileId, map<NodeId, FileView>>, repairs: seq<(FileId, Dispatch)>)
    requires MeshValid(mesh) && HoldersRegistered(mesh, reg) && AnswersWithContent(answers)
    requires 0 <= i < |ks| && RepairsUpTo(mesh, ks[..i], reg, now, answers, repairs)
    requires !NeedsRepair(mesh, reg, now)(ks[i])
    ensures RepairsUpTo(mesh, ks[..i + 1], reg, now, answers, repairs)
  {
    FilterStep(ks, i, NeedsRepair(mesh, reg, now));
  }

  /** A visited file that is repaired adds its dispatch at the end. */
  lemma RepairsAppend(mesh: Dict<MeshEntry>, ks: seq<FileId>, i: int, reg: Dict<NodeState>, now: int,
                      answers: map<FileId, map<NodeId, FileView>>, repairs: seq<(FileId, Dispatch)>, d: Dispatch)
    requires MeshValid(mesh) && HoldersRegistered(mesh, reg) && AnswersWithContent(answers)
    requires 0 <= i < |ks| && RepairsUpTo(mesh, ks[..i], reg, now, answers, repairs)
    requires NeedsRepair(mesh, reg, now)(ks[i])
    requires RepairFor(ks[i], mesh.vals[ks[i]], reg, now, AnswersFor(answers, ks[i]), d)
    ensures RepairsUpTo(mesh, ks[..i + 1], reg, now, answers, repairs + [(ks[i], d)])
  {
    var rep := NeedsRepair(mesh, reg, now);
    FilterStep(ks, i, rep);
    var ids, ids' := Filter(ks[..i], rep), Filter(ks[..i + 1], rep);
    assert ids' == ids + [ks[i]];
    var repairs' := repairs + [(ks[i], d)];
    forall j | 0 <= j < |repairs'|
      ensures repairs'[j].0 == ids'[j] && ids'[j] in mesh.vals
      ensures RepairFor(ids'[j], mesh.vals[ids'[j]], reg, now, AnswersFor(answers, ids'[j]), repairs'[j].1)
    {
      if j < |repairs| {
        assert repairs'[j] == repairs[j] && ids'[j] == ids[j];
      }
    }
  }

  /** Visiting the next file: its entry is still the original, and setting its lock advances the pass. */
  lemma PartialLockStep(mesh: Dict<MeshEntry>, i: int, repaired: FileId -> bool)
    requires mesh.Valid() && 0 <= i < |mesh.keys|
    ensures var ks, f := mesh.keys, mesh.keys[i];
      var before, after := PartialLock(mesh, ks[..i], repaired), PartialLock(mesh, ks[..i + 1], repaired);
      && f in before.vals && before.vals[f] == mesh.vals[f]
      && after == before.Put(f, mesh.vals[f].(locked := !repaired(f)))
  {
    var ks, f := mesh.keys, mesh.keys[i];
    DistinctAt(ks, i);
    assert ks[..i + 1] == ks[..i] + [f];
    var before, after := PartialLock(mesh, ks[..i], repaired), PartialLock(mesh, ks[..i + 1], repaired);
    assert after.vals == before.vals[f := mesh.vals[f].(locked := !repaired(f))];
  }

  /** Before the pass has visited anything, the mesh is as it was. */
  lemma PartialLockNone(mesh: Dict<MeshEntry>, repaired: FileId -> bool)
    ensures PartialLock(mesh, [], repaired) == mesh
  {
    assert PartialLock(mesh, [], repaired).vals == mesh.vals;
  }

  /** The next file to visit still has its original entry. */
  lemma PartialLockUnvisited(mesh: Dict<MeshEntry>, i: int, repaired: FileId -> bool)
    requires mesh.Valid() && 0 <= i < |mesh.keys|
    ensures var f := mesh.keys[i];
      f in PartialLock(mesh, mesh.keys[..i], repaired).vals && PartialLock(mesh, mesh.keys[..i], repaired).vals[f] == mesh.vals[f]
  {
    DistinctAt(mesh.keys, i);
  }

  /**
   * The file `ks[i]` visited with the outcome `d`, taking the mesh from `cur` to `next` and
   * the repairs from `repairs` to `repairs'`: the pass advances by one file.
   */
  lemma PassStep(mesh: Dict<MeshEntry>, i: int, reg: Dict<NodeState>, now: int, answers: map<FileId, map<NodeId, FileView>>,
                 repairs: seq<(FileId, Dispatch)>, repairs': seq<(FileId, Dispatch)>,
                 cur: Dict<MeshEntry>, next: Dict<MeshEntry>, d: Option<Dispatch>)
    requires MeshValid(mesh) && HoldersRegistered(mesh, reg) && AnswersWithContent(answers) && 0 <= i < |mesh.keys|
    requires RepairsUpTo(mesh, mesh.keys[..i], reg, now, answers, repairs)
    requires cur == PartialLock(mesh, mesh.keys[..i], NeedsRepair(mesh, reg, now))
    requires var f := mesh.keys[i];
      && f in mesh.vals && (d.Some? <==> IsRepair(Decide(mesh.vals[f], reg, now)))
      && (d.Some? ==> RepairFor(f, mesh.vals[f], reg, now, AnswersFor(answers, f), d.value))
      && next == cur.Put(f, mesh.vals[f].(locked := d.None?))
      && repairs' == if d.Some? then repairs + [(f, d.value)] else repairs
    ensures RepairsUpTo(mesh, mesh.keys[..i + 1], reg, now, answers, repairs')
    ensures next == PartialLock(mesh, mesh.keys[..i + 1], NeedsRepair(mesh, reg, now))
  {
    var ks, f := mesh.keys, mesh.keys[i];
    PartialLockStep(mesh, i, NeedsRepair(mesh, reg, now));
    if d.Some? {
      RepairsAppend(mesh, ks, i, reg, now, answers, repairs, d.value);
    } else {
      RepairsSkip(mesh, ks, i, reg, now, answers, repairs);
    }
  }

  /**
   * A file is repaired at most once per pass, only when it was not locked, and it is left
   * unlocked exactly when it was repaired: the files skipped, warming up or found in order
   * stay locked until the next rebuild.
   */
  lemma ValidationLocks(mesh: Dict<MeshEntry>, reg: Dict<NodeState>, now: int, f: FileId)
    requires MeshValid(mesh) && HoldersRegistered(mesh, reg) && f in mesh.vals
    ensures Distinct(Filter(mesh.keys, NeedsRepair(mesh, reg, now)))
    ensures f in Filter(mesh.keys, NeedsRepair(mesh, reg, now)) ==> !mesh.vals[f].locked
    ensures var after := PartialLock(mesh, mesh.keys, NeedsRepair(mesh, reg, now));
      after.vals[f].locked <==> f !in Filter(mesh.keys, NeedsRepair(mesh, reg, now))
  {
    FilterDistinct(mesh.keys, NeedsRepair(mesh, reg, now));
    FilterMembers(mesh.keys, NeedsRepair(mesh, reg, now));
    DecideCases(mesh.vals[f], reg, now);
  }

  // ---------------------------------------------------------------- the class

  class FileMesh {
    /** The last file index each node reported, in order of first report. */
    var nodesData: Dict<Snapshot>
    /** The global mesh derived from `nodesData`, with the repair locks. */
    var mesh: Dict<MeshEntry>

    ghost predicate Valid()
      reads this
    {
      nodesData.Valid() && SnapshotsValid(nodesData) && MeshValid(mesh)
    }

    constructor ()
      ensures Valid() && nodesData.keys == [] && mesh.keys == []
    {
      nodesData := EmptyDict();
      mesh := EmptyDict();
    }

    /** `rebuildMesh()`: the mesh recomputed from the reported indexes, every lock released. */
    method RebuildMesh()
      requires nodesData.Valid() && SnapshotsValid(nodesData)
      modifies this
      ensures Valid() && nodesData == old(nodesData) && mesh == BuildMesh(nodesData)
    {
      var nd := nodesData;
      var ks := nd.keys;
      mesh := EmptyDict();
      for i := 0 to |ks|
        invariant nodesData == nd
        invariant mesh == BuildFrom(nd, ks[..i])
      {
        var n := ks[i];
        var snap := nd.vals[n];
        ghost var base := mesh;
        if snap.Some? {
          var s := snap.value;
          var fks := s.keys;
          for j := 0 to |fks|
            invariant nodesData == nd
            invariant mesh == ContributeFiles(base, n, s, fks[..j])
          {
            var f := fks[j];
            var r := s.vals[f];
            assert fks[..j + 1][..j] == fks[..j];
            if f !in mesh.vals {
              mesh := mesh.Put(f, MeshEntry(r.meta, EmptyDict(), false));
            }
            mesh := mesh.Put(f, mesh.vals[f].(nodes := mesh.vals[f].nodes.Put(n, r)));
          }
          assert fks[..|fks|] == fks;
        }
        assert ks[..i + 1][..i] == ks[..i];
      }
      assert ks[..|ks|] == ks;
      BuildMeshShape(nd);
    }

    /** `pushNodeData(nodeID, nodeFiles)`: record the node's index and rebuild the mesh. */
    method PushNodeData(n: NodeId, files: Snapshot)
      requires nodesData.Valid() && SnapshotsValid(nodesData)
      requires files.Some? ==> files.value.Valid()
      modifies this
      ensures Valid() && nodesData == old(nodesData).Put(n, files) && mesh == BuildMesh(nodesData)
    {
      nodesData := nodesData.Put(n, files);
      RebuildMesh();
    }

    /**
     * `requestMeta()` at time `now`: sweep the registry, record every dead node as holding
     * nothing (rebuilding the mesh each time), and return the live nodes to query, in
     * registration order. Their answers arrive later as `PushNodeData` calls.
     */
    method RequestMeta(registry: NodeMesh, now: int, disconnected: set<NodeId>) returns (queried: seq<NodeId>)
      requires Valid() && registry.Valid()
      modifies this, registry
      ensures Valid() && registry.Valid()
      ensures registry.mesh == AfterSweep(old(registry.mesh), now, registry.pingTimeout, disconnected)
      ensures queried == Filter(registry.mesh.keys, IsAlive(registry.mesh))
      ensures nodesData == ClearedDead(old(nodesData), registry.mesh, registry.mesh.keys)
      ensures mesh == if Filter(registry.mesh.keys, DeadIn(registry.mesh)) == [] then old(mesh) else BuildMesh(nodesData)
    {
      var _ := registry.CheckAlive(now, disconnected);
      var reg := registry.mesh;
      var ks := reg.keys;
      ghost var nd0, mesh0 := nodesData, mesh;
      queried := [];
      for i := 0 to |ks|
        invariant Valid() && registry.mesh == reg
        invariant SweptUpTo(nd0, mesh0, reg, ks, i, nodesData, mesh, queried)
      {
        var n := ks[i];
        ghost var nd, m, q := nodesData, mesh, queried;
        if !reg.vals[n].alive {
          PushNodeData(n, Some(EmptyDict()));
        } else {
          queried := queried + [n];
        }
        SweptStep(nd0, mesh0, reg, ks, i, nd, m, q, nodesData, mesh, queried);
        assert Valid() && registry.mesh == reg && SweptUpTo(nd0, mesh0, reg, ks, i + 1, nodesData, mesh, queried);
      }
      assert ks[..|ks|] == ks;
    }

    /** `getFileList()`: the listed files, in mesh order. */
    method GetFileList() returns (files: seq<Listing>)
      requires Valid()
      ensures files == FileList(mesh, mesh.keys)
      ensures |files| == |ListedIds(mesh)|
      ensures forall i | 0 <= i < |files| :: Listed(mesh)(ListedIds(mesh)[i]) && files[i] == ListingOf(mesh, ListedIds(mesh)[i])
    {
      var ks := mesh.keys;
      files := [];
      for i := 0 to |ks|
        invariant files == FileList(mesh, ks[..i])
      {
        var f := ks[i];
        var file := mesh.vals[f];
        var first := file.nodes.vals[file.nodes.keys[0]];
        assert ks[..i + 1][..i] == ks[..i];
        if first.status != "live" || TruthyNumber(first.dateDeleted) {
          continue;
        }
        files := files + [Listing(f, file.nodes.keys, file.meta.Get("name"), first)];
      }
      assert ks[..|ks|] == ks;
      FileListSpec(mesh, ks);
    }

    /**
     * One iteration of `validateCorrectness` for the file `f`: a locked file is skipped; any
     * other is locked, and then, as `Decide` says, skipped, or repaired by the chosen procedure
     * and unlocked. Returns the repair's dispatch, or `None` when there was no repair.
     */
    method VisitFile(f: FileId, reg: Dict<NodeState>, now: int, answers: map<NodeId, FileView>)
      returns (d: Option<Dispatch>)
      requires MeshValid(mesh) && f in mesh.vals && Registered(reg, mesh.vals[f].nodes.keys) && WithContent(answers)
      modifies this
      ensures nodesData == old(nodesData)
      ensures mesh == old(mesh).Put(f, old(mesh.vals[f]).(locked := d.None?))
      ensures d.Some? <==> IsRepair(Decide(old(mesh.vals[f]), reg, now))
      ensures d.Some? ==> RepairFor(f, old(mesh.vals[f]), reg, now, answers, d.value)
    {
      var file := mesh.vals[f];
      if file.locked {
        assert mesh.vals[f := file] == mesh.vals;
        return None;
      }
      VisitDecision(f, file, reg, now, answers);
      mesh := mesh.Put(f, file.(locked := true));
      var nodes := file.nodes.keys;
      var oldest := OldestStart(reg, nodes);
      if now - oldest < WarmUp && |nodes| < Replicas {
        return None;
      }
      var r;
      if |nodes| > Replicas {
        r := DelProcedure(f, file, reg);
      } else if |nodes| < Replicas {
        r := AddProcedure(file, reg, answers);
      } else {
        var problem := MetadataMatchProblem(file);
        if problem.None? {
          return None;
        }
        r := FixingProcedureFix(file, answers);
        FixRepair(f, file, reg, now, answers, r);
      }
      assert RepairFor(f, file, reg, now, answers, r);
      old(mesh).PutPut(f, file.(locked := true), file.(locked := false));
      mesh := mesh.Put(f, file.(locked := false));
      d := Some(r);
    }

    /**
     * The loop of `validateCorrectness()` at time `now`: one pass over the mesh in key order,
     * visiting each file (`VisitFile`); `answers` holds the FileQuery answers the repairs
     * receive. Returns the repairs, in order.
     */
    method ValidationPass(reg: Dict<NodeState>, now: int, answers: map<FileId, map<NodeId, FileView>>)
      returns (repairs: seq<(FileId, Dispatch)>)
      requires MeshValid(mesh) && HoldersRegistered(mesh, reg) && AnswersWithContent(answers)
      modifies this
      ensures nodesData == old(nodesData)
      ensures RepairsUpTo(old(mesh), old(mesh.keys), reg, now, answers, repairs)
      ensures mesh == PartialLock(old(mesh), old(mesh.keys), NeedsRepair(old(mesh), reg, now))
    {
      var ks := mesh.keys;
      ghost var m0 := mesh;
      ghost var rep := NeedsRepair(m0, reg, now);
      repairs := [];
      PartialLockNone(m0, rep);
      assert ks[..0] == [];
      for i := 0 to |ks|
        invariant nodesData == old(nodesData)
        invariant mesh == PartialLock(m0, ks[..i], rep)
        invariant RepairsUpTo(m0, ks[..i], reg, now, answers, repairs)
      {
        var f := ks[i];
        PartialLockUnvisited(m0, i, rep);
        ghost var cur, done := mesh, repairs;
        var d := VisitFile(f, reg, now, AnswersFor(answers, f));
        if d.Some? {
          repairs := repairs + [(f, d.value)];
        }
        PassStep(m0, i, reg, now, answers, done, repairs, cur, mesh, d);
      }
      assert ks[..|ks|] == ks;
    }

    /**
     * `validateCorrectness()` at time `now`: the pass above, and then, when anything was
     * repaired, a new request for metadata (`RequestMeta`, with the sockets in `disconnected`
     * gone). Returns the repairs, in order, and the nodes then queried.
     */
    method ValidateCorrectness(registry: NodeMesh, now: int, answers: map<FileId, map<NodeId, FileView>>,
                               disconnected: set<NodeId>)
      returns (repairs: seq<(FileId, Dispatch)>, queried: seq<NodeId>)
      requires Valid() && registry.Valid()
      requires HoldersRegistered(mesh, registry.mesh) && AnswersWithContent(answers)
      modifies this, registry
      ensures Valid() && registry.Valid()
      ensures RepairsUpTo(old(mesh), old(mesh.keys), old(registry.mesh), now, answers, repairs)
      ensures repairs == [] ==>
        && registry.mesh == old(registry.mesh) && queried == [] && nodesData == old(nodesData)
        && mesh == PartialLock(old(mesh), old(mesh.keys), NeedsRepair(old(mesh), old(registry.mesh), now))
      ensures repairs != [] ==>
        && registry.mesh == AfterSweep(old(registry.mesh), now, registry.pingTimeout, disconnected)
        && queried == Filter(registry.mesh.keys, IsAlive(registry.mesh))
        && nodesData == ClearedDead(old(nodesData), registry.mesh, registry.mesh.keys)
        && mesh == if Filter(registry.mesh.keys, DeadIn(registry.mesh)) == []
                   then PartialLock(old(mesh), old(mesh.keys), NeedsRepair(old(mesh), old(registry.mesh), now))
                   else BuildMesh(nodesData)
    {
      repairs := ValidationPass(registry.mesh, now, answers);
      if |repairs| > 0 {
        queried := RequestMeta(registry, now, disconnected);
      } else {
        queried := [];
      }
    }
  }
}
