/**
 * The global file mesh the master derives from the nodes' file indexes (master/file_mesh.js,
 * `rebuildMesh`): for every file id, the meta it is listed with and each holding node's record.
 */
module MeshBuild {
  import opened Dicts
  import opened Records

  /** A node's last reported file index; `None` stands for a `null`/`undefined` report. */
  type Snapshot = Option<Dict<FileRecord>>

  /** `mesh[fileID]`: the meta, the record each holding node reported, and the repair lock. */
  datatype MeshEntry = MeshEntry(meta: Dict<string>, nodes: Dict<FileRecord>, locked: bool)

  /** Every reported index is a well-formed object. */
  ghost predicate SnapshotsValid(nd: Dict<Snapshot>) {
    forall n | n in nd.vals && nd.vals[n].Some? :: nd.vals[n].value.Valid()
  }

  /** Every entry's node map is well formed and names at least one node. */
  ghost predicate MeshValid(mesh: Dict<MeshEntry>) {
    mesh.Valid() && forall f | f in mesh.vals :: mesh.vals[f].nodes.Valid() && mesh.vals[f].nodes.keys != []
  }

  // ---------------------------------------------------------------- the rebuild, step by step

  /**
   * Node `n` contributing its record `r` for file `f`: a file seen for the first time gets an
   * entry carrying `r`'s meta and no nodes, and then `r` is filed under `n`.
   */
  function Contribute(mesh: Dict<MeshEntry>, n: NodeId, f: FileId, r: FileRecord): Dict<MeshEntry> {
    var m := if f in mesh.vals then mesh else mesh.Put(f, MeshEntry(r.meta, EmptyDict(), false));
    m.Put(f, m.vals[f].(nodes := m.vals[f].nodes.Put(n, r)))
  }

  /** Node `n` contributing the files `fs` of its index `snap`, in order. */
  function ContributeFiles(mesh: Dict<MeshEntry>, n: NodeId, snap: Dict<FileRecord>, fs: seq<FileId>): Dict<MeshEntry> {
    if fs == [] then mesh
    else
      var f := fs[|fs| - 1];
      var m := ContributeFiles(mesh, n, snap, fs[..|fs| - 1]);
      if f in snap.vals then Contribute(m, n, f, snap.vals[f]) else m
  }

  /** Node `n` contributing its whole index; a missing index contributes nothing. */
  function ContributeNode(mesh: Dict<MeshEntry>, nd: Dict<Snapshot>, n: NodeId): Dict<MeshEntry> {
    if n in nd.vals && nd.vals[n].Some? then ContributeFiles(mesh, n, nd.vals[n].value, nd.vals[n].value.keys)
    else mesh
  }

  /** The mesh built from the indexes of the nodes `ns`, in order, starting from nothing. */
  function BuildFrom(nd: Dict<Snapshot>, ns: seq<NodeId>): Dict<MeshEntry> {
    if ns == [] then EmptyDict()
    else ContributeNode(BuildFrom(nd, ns[..|ns| - 1]), nd, ns[|ns| - 1])
  }

  /** What `rebuildMesh` computes from `nodesData`. */
  function BuildMesh(nd: Dict<Snapshot>): Dict<MeshEntry> {
    BuildFrom(nd, nd.keys)
  }

  // ---------------------------------------------------------------- what the mesh holds

  /** Whether node `n` reported file `f`. */
  function HoldsFile(nd: Dict<Snapshot>, f: FileId): NodeId -> bool {
    n => n in nd.vals && nd.vals[n].Some? && f in nd.vals[n].value.vals
  }

  /** The nodes among `ns` that hold `f` (plus `n` itself once it has contributed `f`). */
  function Expected(nd: Dict<Snapshot>, ns: seq<NodeId>, n: NodeId, fdone: seq<FileId>, f: FileId): seq<NodeId> {
    Filter(ns, HoldsFile(nd, f)) + (if f in fdone then [n] else [])
  }

  /** Entry `e` for file `f` lists exactly `holders`, with their reported records, the meta of the first, unlocked. */
  ghost predicate EntryShaped(e: MeshEntry, nd: Dict<Snapshot>, f: FileId, holders: seq<NodeId>) {
    && e.nodes.Valid() && !e.locked && holders != [] && e.nodes.keys == holders
    && (forall m | m in e.nodes.vals :: HoldsFile(nd, f)(m) && e.nodes.vals[m] == nd.vals[m].value.vals[f])
    && e.meta == e.nodes.vals[holders[0]].meta
  }

  /**
   * The mesh after the nodes `ns` have contributed in full and node `n` has contributed the
   * files `fdone`: an entry for exactly the files someone holds, each shaped as above.
   */
  ghost predicate Shaped(mesh: Dict<MeshEntry>, nd: Dict<Snapshot>, ns: seq<NodeId>, n: NodeId, fdone: seq<FileId>) {
    && mesh.Valid()
    && (forall f | f in mesh.vals :: EntryShaped(mesh.vals[f], nd, f, Expected(nd, ns, n, fdone, f)))
    && (forall f | f !in mesh.vals :: Expected(nd, ns, n, fdone, f) == [])
  }

  /** One more file of `n`'s index keeps the mesh shaped. */
  lemma ContributeShaped(mesh: Dict<MeshEntry>, nd: Dict<Snapshot>, ns: seq<NodeId>, n: NodeId, fs: seq<FileId>, j: int)
    requires n in nd.vals && nd.vals[n].Some? && nd.vals[n].value.Valid() && fs == nd.vals[n].value.keys
    requires n !in ns && 0 <= j < |fs|
    requires Shaped(mesh, nd, ns, n, fs[..j])
    ensures Shaped(Contribute(mesh, n, fs[j], nd.vals[n].value.vals[fs[j]]), nd, ns, n, fs[..j + 1])
  {
    var f := fs[j];
    var r := nd.vals[n].value.vals[f];
    ExpectedStep(nd, ns, n, fs, j);
    var before := Expected(nd, ns, n, fs[..j], f);
    var after := Contribute(mesh, n, f, r);
    var e' := after.vals[f];
    ContributeEffect(mesh, n, f, r);
    if f in mesh.vals {
      ExtendEntryShaped(mesh.vals[f], nd, f, before, n, r);
    } else {
      assert before == [];
      NewEntryShaped(nd, f, n, r);
    }
    ShapedUpdate(mesh, after, nd, ns, n, fs[..j], fs[..j + 1], f);
  }

  /** Contributing a record changes the entry of `f` alone: it is created if missing, and `r` is filed under `n`. */
  lemma ContributeEffect(mesh: Dict<MeshEntry>, n: NodeId, f: FileId, r: FileRecord)
    requires mesh.Valid()
    ensures var after := Contribute(mesh, n, f, r);
      && after.Valid() && f in after.vals && after.vals == mesh.vals[f := after.vals[f]]
      && after.vals[f] == if f in mesh.vals then mesh.vals[f].(nodes := mesh.vals[f].nodes.Put(n, r))
                          else MeshEntry(r.meta, EmptyDict<FileRecord>().Put(n, r), false)
  {
  }

  /** Replacing (or adding) the entry of `f` alone keeps the mesh shaped when only `f`'s expectation changed. */
  lemma ShapedUpdate(mesh: Dict<MeshEntry>, after: Dict<MeshEntry>, nd: Dict<Snapshot>, ns: seq<NodeId>, n: NodeId,
                     fdone: seq<FileId>, fdone': seq<FileId>, f: FileId)
    requires Shaped(mesh, nd, ns, n, fdone)
    requires after.Valid() && f in after.vals && after.vals == mesh.vals[f := after.vals[f]]
    requires EntryShaped(after.vals[f], nd, f, Expected(nd, ns, n, fdone', f))
    requires forall g | g != f :: Expected(nd, ns, n, fdone', g) == Expected(nd, ns, n, fdone, g)
    ensures Shaped(after, nd, ns, n, fdone')
  {
    forall g | g in after.vals && g != f
      ensures EntryShaped(after.vals[g], nd, g, Expected(nd, ns, n, fdone', g))
    {
      assert after.vals[g] == mesh.vals[g];
    }
    forall g | g !in after.vals
      ensures Expected(nd, ns, n, fdone', g) == []
    {
      assert g != f && g !in mesh.vals;
    }
  }

  /** Contributing `fs[j]` extends that file's expected holders by `n` and no other file's. */
  lemma ExpectedStep(nd: Dict<Snapshot>, ns: seq<NodeId>, n: NodeId, fs: seq<FileId>, j: int)
    requires Distinct(fs) && n !in ns && 0 <= j < |fs|
    ensures n !in Expected(nd, ns, n, fs[..j], fs[j])
    ensures Expected(nd, ns, n, fs[..j + 1], fs[j]) == Expected(nd, ns, n, fs[..j], fs[j]) + [n]
    ensures forall g | g != fs[j] :: Expected(nd, ns, n, fs[..j + 1], g) == Expected(nd, ns, n, fs[..j], g)
  {
    var f := fs[j];
    assert fs[..j + 1] == fs[..j] + [f];
    assert f !in fs[..j] by {
      assert forall k | 0 <= k < j :: fs[..j][k] == fs[k];
    }
    FilterMembers(ns, HoldsFile(nd, f));
  }

  /** The entry a file gets when `n` is the first to report it. */
  lemma NewEntryShaped(nd: Dict<Snapshot>, f: FileId, n: NodeId, r: FileRecord)
    requires HoldsFile(nd, f)(n) && r == nd.vals[n].value.vals[f]
    ensures EntryShaped(MeshEntry(r.meta, EmptyDict<FileRecord>().Put(n, r), false), nd, f, [n])
  {
  }

  /** Filing one more holder's record at the end of an entry. */
  lemma ExtendEntryShaped(e: MeshEntry, nd: Dict<Snapshot>, f: FileId, holders: seq<NodeId>, n: NodeId, r: FileRecord)
    requires EntryShaped(e, nd, f, holders) && n !in holders
    requires HoldsFile(nd, f)(n) && r == nd.vals[n].value.vals[f]
    ensures EntryShaped(e.(nodes := e.nodes.Put(n, r)), nd, f, holders + [n])
  {
    assert e.nodes.Put(n, r).vals[holders[0]] == e.nodes.vals[holders[0]];
  }

  /** Contributing the first `j` files of `n`'s index `snap` keeps the mesh shaped. */
  lemma {:induction false} ContributeFilesShaped(mesh: Dict<MeshEntry>, nd: Dict<Snapshot>, ns: seq<NodeId>, n: NodeId,
                                                 snap: Dict<FileRecord>, j: int)
    requires n in nd.vals && nd.vals[n] == Some(snap) && snap.Valid()
    requires n !in ns && 0 <= j <= |snap.keys|
    requires Shaped(mesh, nd, ns, n, [])
    ensures Shaped(ContributeFiles(mesh, n, snap, snap.keys[..j]), nd, ns, n, snap.keys[..j])
  {
    var fs := snap.keys;
    if j == 0 {
      assert fs[..0] == [];
    } else {
      ContributeFilesShaped(mesh, nd, ns, n, snap, j - 1);
      var prev := ContributeFiles(mesh, n, snap, fs[..j - 1]);
      assert fs[..j][..j - 1] == fs[..j - 1];
      assert fs[..j][j - 1] == fs[j - 1];
      assert fs[j - 1] in snap.vals;
      assert ContributeFiles(mesh, n, snap, fs[..j]) == Contribute(prev, n, fs[j - 1], snap.vals[fs[j - 1]]);
      ContributeShaped(prev, nd, ns, n, fs, j - 1);
    }
  }

  /** Shapedness depends on the contributors only through the expected holders of each file. */
  lemma ShapedSameExpectation(mesh: Dict<MeshEntry>, nd: Dict<Snapshot>, ns: seq<NodeId>, n: NodeId, fdone: seq<FileId>,
                              ns': seq<NodeId>, n': NodeId, fdone': seq<FileId>)
    requires Shaped(mesh, nd, ns, n, fdone)
    requires forall f :: Expected(nd, ns', n', fdone', f) == Expected(nd, ns, n, fdone, f)
    ensures Shaped(mesh, nd, ns', n', fdone')
  {
  }

  /** Whatever node is named, an empty `fdone` adds nothing to the expectation. */
  lemma ShapedAnyNode(mesh: Dict<MeshEntry>, nd: Dict<Snapshot>, ns: seq<NodeId>, n: NodeId, n': NodeId)
    requires Shaped(mesh, nd, ns, n, [])
    ensures Shaped(mesh, nd, ns, n', [])
  {
    forall f ensures Expected(nd, ns, n', [], f) == Expected(nd, ns, n, [], f) {
    }
    ShapedSameExpectation(mesh, nd, ns, n, [], ns, n', []);
  }

  /** After `n` has contributed its whole index, it counts among the finished nodes. */
  lemma NodeFinished(mesh: Dict<MeshEntry>, nd: Dict<Snapshot>, ns: seq<NodeId>, n: NodeId, fdone: seq<FileId>)
    requires Shaped(mesh, nd, ns, n, fdone)
    requires forall f :: f in fdone <==> HoldsFile(nd, f)(n)
    ensures Shaped(mesh, nd, ns + [n], n, [])
  {
    forall f ensures Expected(nd, ns + [n], n, [], f) == Expected(nd, ns, n, fdone, f) {
      ExpectedFinished(nd, ns, n, fdone, f);
    }
    ShapedSameExpectation(mesh, nd, ns, n, fdone, ns + [n], n, []);
  }

  /** A file `n` has contributed is expected of `n` as a finished node, in the same position. */
  lemma ExpectedFinished(nd: Dict<Snapshot>, ns: seq<NodeId>, n: NodeId, fdone: seq<FileId>, f: FileId)
    requires f in fdone <==> HoldsFile(nd, f)(n)
    ensures Expected(nd, ns + [n], n, [], f) == Expected(nd, ns, n, fdone, f)
  {
    FilterAppend(ns, [n], HoldsFile(nd, f));
    assert [n][1..] == [];
  }

  /** The mesh built from the first `i` nodes is shaped by exactly those nodes. */
  lemma {:induction false} BuildFromShaped(nd: Dict<Snapshot>, i: int)
    requires nd.Valid() && SnapshotsValid(nd) && 0 <= i <= |nd.keys|
    ensures Shaped(BuildFrom(nd, nd.keys[..i]), nd, nd.keys[..i], "", [])
  {
    var ks := nd.keys;
    if i == 0 {
      assert ks[..0] == [];
    } else {
      var prev := ks[..i - 1];
      var n := ks[i - 1];
      assert ks[..i][..i - 1] == prev && ks[..i][i - 1] == n && ks[..i] == prev + [n];
      assert n !in prev by {
        assert forall k | 0 <= k < i - 1 :: prev[k] == ks[k];
      }
      BuildFromShaped(nd, i - 1);
      var mesh := BuildFrom(nd, prev);
      ShapedAnyNode(mesh, nd, prev, "", n);
      if nd.vals[n].Some? {
        var snap := nd.vals[n].value;
        ContributeFilesShaped(mesh, nd, prev, n, snap, |snap.keys|);
        assert snap.keys[..|snap.keys|] == snap.keys;
        NodeFinished(ContributeFiles(mesh, n, snap, snap.keys), nd, prev, n, snap.keys);
      } else {
        NodeFinished(mesh, nd, prev, n, []);
      }
      ShapedAnyNode(BuildFrom(nd, ks[..i]), nd, ks[..i], n, "");
    }
  }

  /**
   * The rebuilt mesh lists a file exactly when some node reported it; each entry names the
   * reporting nodes in `nodesData` order with the records they reported, takes its meta from
   * the first of them, and starts unlocked.
   */
  lemma BuildMeshShape(nd: Dict<Snapshot>)
    requires nd.Valid() && SnapshotsValid(nd)
    ensures var mesh := BuildMesh(nd);
      && MeshValid(mesh)
      && (forall f :: f in mesh.vals <==> Filter(nd.keys, HoldsFile(nd, f)) != [])
      && (forall f | f in mesh.vals ::
            && mesh.vals[f].nodes.keys == Filter(nd.keys, HoldsFile(nd, f))
            && !mesh.vals[f].locked
            && mesh.vals[f].meta == mesh.vals[f].nodes.vals[mesh.vals[f].nodes.keys[0]].meta)
      && (forall f, n | f in mesh.vals && n in mesh.vals[f].nodes.vals ::
            HoldsFile(nd, f)(n) && mesh.vals[f].nodes.vals[n] == nd.vals[n].value.vals[f])
  {
    BuildFromShaped(nd, |nd.keys|);
    assert nd.keys[..|nd.keys|] == nd.keys;
    var mesh := BuildMesh(nd);
    forall f | f in mesh.vals ensures Expected(nd, nd.keys, "", [], f) == Filter(nd.keys, HoldsFile(nd, f)) {
    }
    forall f | f !in mesh.vals ensures Filter(nd.keys, HoldsFile(nd, f)) == [] {
      assert Expected(nd, nd.keys, "", [], f) == Filter(nd.keys, HoldsFile(nd, f));
    }
  }

  /** A node's record appears in the mesh exactly when its index reports the file; unreported files and missing indexes contribute nothing. */
  lemma BuildMeshRecords(nd: Dict<Snapshot>, f: FileId, n: NodeId)
    requires nd.Valid() && SnapshotsValid(nd)
    ensures var mesh := BuildMesh(nd);
      (f in mesh.vals && n in mesh.vals[f].nodes.vals) <==> HoldsFile(nd, f)(n)
    ensures var mesh := BuildMesh(nd);
      f in mesh.vals && n in mesh.vals[f].nodes.vals ==> mesh.vals[f].nodes.vals[n] == nd.vals[n].value.vals[f]
  {
    BuildMeshShape(nd);
    FilterMembers(nd.keys, HoldsFile(nd, f));
  }
}
