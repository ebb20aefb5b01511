/**
 * master/node_mesh.js, `commandDel`: the master deletes a file by sending a tombstone to every
 * live holder, holding the file's repair lock while the deletes are in flight. It reads both the
 * node registry and the file mesh, so it sits above both of them here. Whether each DELETE is
 * acknowledged is the parameter `acked`: the nodes whose callback reports success in time.
 */
module MasterCommands {
  import opened Dicts
  import opened Records
  import opened MeshBuild
  import opened NodeRegistry
  import opened ReplicationEngine

  /** The TypeError thrown by `this.fileMesh.mesh[fileID].locked` for a file the mesh does not know. */
  const UnknownFile := "Cannot read properties of undefined (reading 'locked')"

  /** The rejection of a DELETE that is not answered within five seconds. */
  const DeleteRejected := "Timeout"

  /** The holders of a file that are alive in the registry, in the order the mesh lists them. */
  function DelTargets(e: MeshEntry, reg: Dict<NodeState>): seq<NodeId> {
    Filter(e.nodes.keys, IsAlive(reg))
  }

  /**
   * The tombstone version: 100 above the version of the first holder listed. A holder with no
   * version makes the sum `NaN`, which travels as `null`.
   */
  function DelVersion(e: MeshEntry): (v: Option<int>)
    requires e.nodes.Valid() && e.nodes.keys != []
    ensures var first := e.nodes.vals[e.nodes.keys[0]];
      && (v.Some? <==> first.version.Some?)
      && (v.Some? ==> v.value == first.version.value + 100)
  {
    var first := e.nodes.vals[e.nodes.keys[0]];
    match first.version
    case None => None
    case Some(x) => Some(100 + x)
  }

  /** The DELETE request `commandDel` sends to each target: a tombstone, never a forced removal. */
  function DelPayload(fileId: FileId, e: MeshEntry): (req: DeleteRequest)
    requires e.nodes.Valid() && e.nodes.keys != []
    ensures req.id == fileId && !req.force && req.version == DelVersion(e)
  {
    DeleteRequest(fileId, DelVersion(e), false)
  }

  /**
   * How the DELETE to `t` ends, given the error each answering node passed to the callback
   * (`""` for none): nothing when it succeeded, its error when the node refused, and
   * "Timeout" when the node did not answer (`t` has no entry in `replies`).
   */
  function Failure(t: NodeId, replies: map<NodeId, string>): Option<string> {
    if t !in replies then Some(DeleteRejected)
    else if replies[t] != "" then Some(replies[t])
    else None
  }

  /**
   * The rejection `Promise.all` passes on: the failure of one of the targets, here the first
   * failing target in holder order; nothing when every DELETE succeeded.
   */
  function FirstFailure(targets: seq<NodeId>, replies: map<NodeId, string>): (r: Option<string>)
    ensures r.None? <==> forall t | t in targets :: t in replies && replies[t] == ""
    ensures r.Some? ==> exists t | t in targets :: Failure(t, replies) == r
  {
    if targets == [] then None
    else if Failure(targets[0], replies).Some? then Failure(targets[0], replies)
    else FirstFailure(targets[1..], replies)
  }

  /**
   * The delete reaches exactly the file's holders that are alive, each once, and no node the
   * same sweep declared dead.
   */
  lemma DelTargetsExactly(e: MeshEntry, m: Dict<NodeState>, now: int, timeout: int, disconnected: set<NodeId>)
    requires e.nodes.Valid()
    ensures var m' := AfterSweep(m, now, timeout, disconnected);
      var targets := DelTargets(e, m');
      && Distinct(targets)
      && (forall n :: n in targets <==> n in e.nodes.vals && n in m.vals && m'.vals[n].alive)
      && (forall n | n in targets :: !Dies(m.vals[n], now, timeout, n in disconnected))
  {
    var m' := AfterSweep(m, now, timeout, disconnected);
    FilterMembers(e.nodes.keys, IsAlive(m'));
    FilterDistinct(e.nodes.keys, IsAlive(m'));
    forall n | n in m.vals && m'.vals[n].alive ensures !Dies(m.vals[n], now, timeout, n in disconnected) {
      SweepEffect(m, now, timeout, disconnected, n);
    }
  }

  /**
   * `commandDel({id})` at time `now`. It sweeps the registry first. A file the mesh does not
   * know then throws and nothing is sent. Otherwise the file is locked, one DELETE goes to each
   * live holder, and the lock is released only when every one of them succeeded; a refusal
   * or a timeout rejects the call with that failure and leaves the file locked until the next
   * rebuild. `replies` holds the error each answering node passed back (`""` for none).
   */
  method CommandDel(registry: NodeMesh, files: FileMesh, fileId: FileId, now: int, disconnected: set<NodeId>,
                    replies: map<NodeId, string>)
    returns (sends: seq<(NodeId, DeleteRequest)>, outcome: Result<seq<NodeId>>)
    requires registry.Valid() && files.Valid()
    modifies registry, files
    ensures registry.Valid() && files.Valid()
    ensures registry.mesh == AfterSweep(old(registry.mesh), now, registry.pingTimeout, disconnected)
    ensures files.nodesData == old(files.nodesData)
    ensures fileId !in old(files.mesh.vals) ==>
      sends == [] && outcome == Err(UnknownFile) && files.mesh == old(files.mesh)
    ensures fileId in old(files.mesh.vals) ==>
      var e := old(files.mesh.vals[fileId]);
      var targets := DelTargets(e, registry.mesh);
      && |sends| == |targets|
      && (forall i | 0 <= i < |sends| :: sends[i] == (targets[i], DelPayload(fileId, e)))
      && (outcome.Ok? <==> forall t | t in targets :: t in replies && replies[t] == "")
      && (outcome.Ok? ==> outcome.value == targets)
      && (outcome.Err? ==> exists t | t in targets :: Failure(t, replies) == Some(outcome.message))
      && files.mesh == old(files.mesh).Put(fileId, e.(locked := outcome.Err?))
  {
    var _ := registry.CheckAlive(now, disconnected);
    if fileId !in files.mesh.vals {
      sends := [];
      outcome := Err(UnknownFile);
      return;
    }
    var e := files.mesh.vals[fileId];
    files.mesh := files.mesh.Put(fileId, e.(locked := true));
    var targets := DelTargets(e, registry.mesh);
    sends := Fanout(targets, DelPayload(fileId, e));
    var failure := FirstFailure(targets, replies);
    old(files.mesh).PutPut(fileId, e.(locked := true), e.(locked := failure.Some?));
    ghost var final := old(files.mesh).Put(fileId, e.(locked := failure.Some?));
    assert MeshValid(final);
    if failure.None? {
      files.mesh := files.mesh.Put(fileId, e.(locked := false));
      outcome := Ok(targets);
      assert files.mesh == final;
    } else {
      outcome := Err(failure.value);
      assert files.mesh == final;
    }
  }
}
