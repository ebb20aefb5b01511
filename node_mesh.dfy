/**
 * master/node_mesh.js: the master's registry of storage nodes (`mesh`, keyed by node id),
 * fed by heartbeats, swept by a timeout-based failure detector, and used to place new files.
 * The clock is the parameter `now`; a node's socket is reduced to whether it is still
 * connected when the detector runs.
 */
module NodeRegistry {
  import opened Dicts
  import opened Ordering
  import opened Records
  import Tools

  /** A registry entry. `lastDead` is `None` until the node is first seen dead. */
  datatype NodeState = NodeState(
    firstStart: int,
    lastStart: int,
    alive: bool,
    healthy: bool,
    lastPing: int,
    lastDead: Option<int>,
    fileCount: int)

  /** One line of `getNodes()`. */
  datatype NodeInfo = NodeInfo(
    id: NodeId,
    name: NodeId,
    alive: bool,
    healthy: bool,
    lastPing: int,
    firstStart: int,
    lastStart: int,
    fileCount: int)

  /** What an upload hands to `commandAdd`. */
  datatype FileData = FileData(name: string, size: nat, content: string)

  // ---------------------------------------------------------------- failure detector

  /** Whether the detector declares a node dead: it was alive and its ping is too old or its socket is gone. */
  predicate Dies(s: NodeState, now: int, timeout: int, disconnected: bool) {
    s.alive && (now - s.lastPing >= timeout || disconnected)
  }

  /** The registered ids that die in a sweep at `now`. */
  function Dying(m: Dict<NodeState>, now: int, timeout: int, disconnected: set<NodeId>): NodeId -> bool {
    id => id in m.vals && Dies(m.vals[id], now, timeout, id in disconnected)
  }

  /** The entry of a node declared dead at `now`. */
  function MarkedDead(s: NodeState, now: int): NodeState {
    s.(alive := false, lastDead := Some(now))
  }

  /** The registry after a sweep at `now`: dying nodes marked dead, every other entry as it was, none removed. */
  function AfterSweep(m: Dict<NodeState>, now: int, timeout: int, disconnected: set<NodeId>): (r: Dict<NodeState>)
    ensures r.keys == m.keys && r.vals.Keys == m.vals.Keys
    ensures m.Valid() ==> r.Valid()
  {
    var dying := Dying(m, now, timeout, disconnected);
    Dict(m.keys, map id | id in m.vals :: if dying(id) then MarkedDead(m.vals[id], now) else m.vals[id])
  }

  /**
   * A sweep marks dead exactly the alive nodes that timed out or lost their socket, stamping
   * `lastDead`, and leaves every other entry, dead ones included, untouched.
   */
  lemma SweepEffect(m: Dict<NodeState>, now: int, timeout: int, disconnected: set<NodeId>, id: NodeId)
    requires id in m.vals
    ensures var s, t := m.vals[id], AfterSweep(m, now, timeout, disconnected).vals[id];
      && (t.alive <==> s.alive && !Dies(s, now, timeout, id in disconnected))
      && (Dies(s, now, timeout, id in disconnected) ==> t.lastDead == Some(now))
      && (!s.alive ==> t == s)
      && t.firstStart == s.firstStart && t.lastStart == s.lastStart && t.lastPing == s.lastPing && t.fileCount == s.fileCount
  {
  }

  /** A second sweep at the same time finds nobody to declare dead and changes nothing. */
  lemma SweepTwice(m: Dict<NodeState>, now: int, timeout: int, disconnected: set<NodeId>)
    ensures var once := AfterSweep(m, now, timeout, disconnected);
      && Filter(once.keys, Dying(once, now, timeout, disconnected)) == []
      && AfterSweep(once, now, timeout, disconnected) == once
  {
    var once := AfterSweep(m, now, timeout, disconnected);
    var dying := Dying(once, now, timeout, disconnected);
    forall id | id in once.keys ensures !dying(id) {
      if id in once.vals {
        assert !once.vals[id].alive || !Dying(m, now, timeout, disconnected)(id);
      }
    }
    FilterNone(once.keys, dying);
    assert AfterSweep(once, now, timeout, disconnected).vals == once.vals;
  }

  /** The registry part way through a sweep, once the ids `done` have been visited. */
  function PartialSweep(m: Dict<NodeState>, done: seq<NodeId>, now: int, timeout: int, disconnected: set<NodeId>): Dict<NodeState> {
    var dying := Dying(m, now, timeout, disconnected);
    Dict(m.keys, map id | id in m.vals :: if id in done && dying(id) then MarkedDead(m.vals[id], now) else m.vals[id])
  }

  /** Once every key is visited, the sweep is complete. */
  lemma PartialSweepAll(m: Dict<NodeState>, now: int, timeout: int, disconnected: set<NodeId>)
    requires m.Valid()
    ensures PartialSweep(m, m.keys, now, timeout, disconnected) == AfterSweep(m, now, timeout, disconnected)
  {
    assert PartialSweep(m, m.keys, now, timeout, disconnected).vals == AfterSweep(m, now, timeout, disconnected).vals;
  }

  /** Visiting the next key of a sweep: the entry is still the original, and marking it (or not) advances the sweep. */
  lemma PartialSweepStep(m: Dict<NodeState>, i: int, now: int, timeout: int, disconnected: set<NodeId>)
    requires m.Valid() && 0 <= i < |m.keys|
    ensures var ks, id := m.keys, m.keys[i];
      var before, after := PartialSweep(m, ks[..i], now, timeout, disconnected), PartialSweep(m, ks[..i + 1], now, timeout, disconnected);
      && id in before.vals && before.vals[id] == m.vals[id]
      && after == if Dies(m.vals[id], now, timeout, id in disconnected) then before.Put(id, MarkedDead(m.vals[id], now)) else before
  {
    var ks, id := m.keys, m.keys[i];
    assert ks[..i + 1] == ks[..i] + [id];
    assert id !in ks[..i] by {
      assert forall j | 0 <= j < i :: ks[..i][j] == ks[j];
    }
    var before, after := PartialSweep(m, ks[..i], now, timeout, disconnected), PartialSweep(m, ks[..i + 1], now, timeout, disconnected);
    if Dies(m.vals[id], now, timeout, id in disconnected) {
      assert after.vals == before.vals[id := MarkedDead(m.vals[id], now)];
    } else {
      assert after.vals == before.vals;
    }
  }

  // ---------------------------------------------------------------- heartbeats

  /** The entry a heartbeat leaves, given the entry before it (if any). */
  function Pinged(prev: Option<NodeState>, fileCount: int, now: int): (s: NodeState)
    ensures s.alive && s.lastPing == now && s.fileCount == fileCount
  {
    match prev
    case None => NodeState(now, now, true, true, now, None, fileCount)
    case Some(p) =>
      var q := if !p.alive then p.(healthy := false, lastStart := now) else p;
      q.(alive := true, lastPing := now, fileCount := fileCount)
  }

  // ---------------------------------------------------------------- placement

  /** The load `sort` compares nodes by; an unregistered id counts as empty. */
  function Load(m: Dict<NodeState>): NodeId -> int {
    id => if id in m.vals then m.vals[id].fileCount else 0
  }

  function IsAlive(m: Dict<NodeState>): NodeId -> bool {
    id => id in m.vals && m.vals[id].alive
  }

  /** The first `n` elements (`slice(0, n)`). */
  function Take(s: seq<string>, n: nat): (r: seq<string>)
    ensures |r| == if |s| < n then |s| else n
    ensures r == s[..|r|]
  {
    if |s| <= n then s else s[..n]
  }

  /**
   * `Object.keys(m).filter(eligible).sort(by fileCount).slice(0, n)`: at most `n` eligible
   * registered nodes, fewest files first.
   */
  function LeastLoaded(m: Dict<NodeState>, eligible: NodeId -> bool, n: nat): seq<NodeId> {
    Take(SortBy(Filter(m.keys, eligible), Load(m)), n)
  }

  /**
   * The nodes chosen are distinct eligible registered nodes, as many as there are up to `n`,
   * and none of them carries more files than an eligible node left out.
   */
  lemma LeastLoadedChoice(m: Dict<NodeState>, eligible: NodeId -> bool, n: nat)
    requires m.Valid()
    ensures var r, cands := LeastLoaded(m, eligible, n), Filter(m.keys, eligible);
      && |r| == (if |cands| < n then |cands| else n)
      && Distinct(r)
      && (forall x | x in r :: x in m.vals && eligible(x))
      && (forall x, y | x in r && y in m.vals && eligible(y) && y !in r :: m.vals[x].fileCount <= m.vals[y].fileCount)
  {
    var cands := Filter(m.keys, eligible);
    var sorted := SortBy(cands, Load(m));
    var r := LeastLoaded(m, eligible, n);
    FilterMembers(m.keys, eligible);
    FilterDistinct(m.keys, eligible);
    PermutationDistinct(cands, sorted);
    SortByMembers(cands, Load(m));
    PrefixDistinct(sorted, |r|);
    forall x, y | x in r && y in m.vals && eligible(y) && y !in r
      ensures m.vals[x].fileCount <= m.vals[y].fileCount
    {
      SortedPrefixLeast(sorted, Load(m), |r|, x, y);
    }
  }

  lemma PrefixDistinct(s: seq<string>, k: nat)
    requires Distinct(s) && k <= |s|
    ensures Distinct(s[..k])
  {
    assert forall i | 0 <= i < k :: s[..k][i] == s[i];
  }

  /** In a sequence sorted by `key`, what the first `k` elements hold weighs no more than what comes after. */
  lemma SortedPrefixLeast(sorted: seq<string>, key: string -> int, k: nat, x: string, y: string)
    requires SortedBy(sorted, key) && k <= |sorted|
    requires x in sorted[..k] && y in sorted && y !in sorted[..k]
    ensures key(x) <= key(y)
  {
    var i :| 0 <= i < k && sorted[..k][i] == x;
    var j :| 0 <= j < |sorted| && sorted[j] == y;
    assert forall t | 0 <= t < k :: sorted[..k][t] == sorted[t];
    assert sorted[i] == x;
  }

  /** The ADD request `commandAdd` sends for an upload: version 1 and meta `{name, size}`. */
  function AddPayload(id: FileId, file: FileData): (req: AddRequest)
    ensures req.id == id && req.version == Some(1) && req.data == file.content && req.status.None?
    ensures req.meta.Some? && req.meta.value.Valid() && req.meta.value.keys == ["name", "size"]
    ensures req.meta.value.vals["name"] == file.name && req.meta.value.vals["size"] == Tools.DecimalString(file.size)
  {
    var meta := EmptyDict<string>().Put("name", file.name).Put("size", Tools.DecimalString(file.size));
    AddRequest(id, Some(1), file.content, Some(meta), None)
  }

  /** The loop that emits one copy of `request` to each target, in order. */
  method Fanout<R>(targets: seq<NodeId>, request: R) returns (sends: seq<(NodeId, R)>)
    ensures |sends| == |targets|
    ensures forall i | 0 <= i < |sends| :: sends[i] == (targets[i], request)
  {
    sends := [];
    for i := 0 to |targets|
      invariant |sends| == i
      invariant forall j | 0 <= j < i :: sends[j] == (targets[j], request)
    {
      sends := sends + [(targets[i], request)];
    }
  }

  // ---------------------------------------------------------------- the registry

  class NodeMesh {
    var mesh: Dict<NodeState>
    /** `config.global.connectionTimeout`, in milliseconds. */
    const pingTimeout: int

    ghost predicate Valid()
      reads this
    {
      mesh.Valid()
    }

    constructor (pingTimeout: int)
      ensures Valid() && mesh.keys == [] && this.pingTimeout == pingTimeout
    {
      this.pingTimeout := pingTimeout;
      mesh := EmptyDict();
    }

    /** `nodePing(socket, {id, fileCount})` at time `now`. */
    method NodePing(id: NodeId, fileCount: int, now: int) returns (r: NodeId)
      requires Valid()
      modifies this
      ensures Valid() && r == id
      ensures mesh.keys == if id in old(mesh.vals) then old(mesh.keys) else old(mesh.keys) + [id]
      ensures mesh.vals == old(mesh.vals)[id := Pinged(old(mesh).Get(id), fileCount, now)]
      ensures id !in old(mesh.vals) ==> mesh.vals[id] == NodeState(now, now, true, true, now, None, fileCount)
      ensures id in old(mesh.vals) && !old(mesh.vals[id]).alive ==>
        var p, s := old(mesh.vals[id]), mesh.vals[id];
        !s.healthy && s.lastStart == now && s.firstStart == p.firstStart && s.lastDead == p.lastDead
      ensures id in old(mesh.vals) && old(mesh.vals[id]).alive ==>
        var p, s := old(mesh.vals[id]), mesh.vals[id];
        s.healthy == p.healthy && s.firstStart == p.firstStart && s.lastStart == p.lastStart && s.lastDead == p.lastDead
      ensures mesh.vals[id].alive && mesh.vals[id].lastPing == now && mesh.vals[id].fileCount == fileCount
    {
      var existed := id in mesh.vals;
      var wasDead := false;
      if !existed {
        mesh := mesh.Put(id, NodeState(now, now, true, true, now, None, fileCount));
      } else {
        wasDead := !mesh.vals[id].alive;
      }
      var node := mesh.vals[id];
      if existed && wasDead {
        node := node.(healthy := false, lastStart := now);
      }
      node := node.(alive := true, lastPing := now, fileCount := fileCount);
      old(mesh).PutPut(id, NodeState(now, now, true, true, now, None, fileCount), node);
      mesh := mesh.Put(id, node);
      r := id;
    }

    /** `getNodes()`: one line per registered node, in registration order. */
    method GetNodes() returns (list: seq<NodeInfo>)
      requires Valid()
      ensures |list| == |mesh.keys|
      ensures forall i | 0 <= i < |list| ::
        var key := mesh.keys[i];
        var s := mesh.vals[key];
        && list[i].id == key && list[i].name == key
        && list[i].alive == s.alive && list[i].healthy == s.healthy && list[i].lastPing == s.lastPing
        && list[i].firstStart == s.firstStart && list[i].lastStart == s.lastStart && list[i].fileCount == s.fileCount
    {
      list := [];
      var keys := mesh.keys;
      for i := 0 to |keys|
        invariant |list| == i
        invariant forall j | 0 <= j < i ::
          var s := mesh.vals[keys[j]];
          list[j] == NodeInfo(keys[j], keys[j], s.alive, s.healthy, s.lastPing, s.firstStart, s.lastStart, s.fileCount)
      {
        var key := keys[i];
        var node := mesh.vals[key];
        list := list + [NodeInfo(key, key, node.alive, node.healthy, node.lastPing, node.firstStart, node.lastStart, node.fileCount)];
      }
    }

    /**
     * `checkAlive()` at time `now`, where `disconnected` holds the nodes whose socket is no
     * longer connected: returns the nodes it declares dead, in registration order.
     */
    method CheckAlive(now: int, disconnected: set<NodeId>) returns (whoDied: seq<NodeId>)
      requires Valid()
      modifies this
      ensures Valid()
      ensures mesh == AfterSweep(old(mesh), now, pingTimeout, disconnected)
      ensures whoDied == Filter(old(mesh.keys), Dying(old(mesh), now, pingTimeout, disconnected))
      ensures forall id :: id in whoDied <==>
        id in old(mesh.vals) && Dies(old(mesh.vals[id]), now, pingTimeout, id in disconnected)
    {
      ghost var m0 := mesh;
      ghost var dying := Dying(m0, now, pingTimeout, disconnected);
      var ks := mesh.keys;
      whoDied := [];
      var i := 0;
      while i < |ks|
        invariant 0 <= i <= |ks|
        invariant mesh == PartialSweep(m0, ks[..i], now, pingTimeout, disconnected)
        invariant whoDied == Filter(ks[..i], dying)
      {
        var id := ks[i];
        PartialSweepStep(m0, i, now, pingTimeout, disconnected);
        var node := mesh.vals[id];
        if node.alive {
          if now - node.lastPing >= pingTimeout || id in disconnected {
            mesh := mesh.Put(id, node.(alive := false, lastDead := Some(now)));
            whoDied := whoDied + [id];
          }
        }
        FilterStep(ks, i, dying);
        i := i + 1;
      }
      assert ks[..i] == ks;
      PartialSweepAll(m0, now, pingTimeout, disconnected);
      FilterMembers(ks, dying);
    }

    /**
     * `commandAdd(fileData, uuid)` at time `now`: sweeps the registry, names the file `uuid`
     * when one is given and non-empty (otherwise `generated`, the id `uuidGen` would produce),
     * and sends the ADD request to the (at most three) least loaded live nodes. Returns the id
     * and the requests, in the order they are sent.
     */
    method CommandAdd(file: FileData, uuid: Option<string>, generated: FileId, now: int, disconnected: set<NodeId>)
      returns (fileId: FileId, sends: seq<(NodeId, AddRequest)>)
      requires Valid()
      modifies this
      ensures Valid()
      ensures mesh == AfterSweep(old(mesh), now, pingTimeout, disconnected)
      ensures fileId == if TruthyString(uuid) then uuid.value else generated
      ensures var targets := LeastLoaded(mesh, IsAlive(mesh), 3);
        |sends| == |targets| && forall i | 0 <= i < |sends| :: sends[i] == (targets[i], AddPayload(fileId, file))
    {
      var _ := CheckAlive(now, disconnected);
      fileId := if TruthyString(uuid) then uuid.value else generated;
      var targets := LeastLoaded(mesh, IsAlive(mesh), 3);
      sends := Fanout(targets, AddPayload(fileId, file));
    }
  }

  /**
   * Where `commandAdd` places a file: on distinct live nodes, three of them unless fewer are
   * live, never on a node the same sweep declared dead, and on no node carrying more files
   * than a live node passed over.
   */
  lemma AddPlacement(m: Dict<NodeState>, now: int, timeout: int, disconnected: set<NodeId>)
    requires m.Valid()
    ensures var m' := AfterSweep(m, now, timeout, disconnected);
      var targets, live := LeastLoaded(m', IsAlive(m'), 3), Filter(m'.keys, IsAlive(m'));
      && |targets| == (if |live| < 3 then |live| else 3)
      && Distinct(targets)
      && (forall x | x in targets :: x in m.vals && m'.vals[x].alive && !Dies(m.vals[x], now, timeout, x in disconnected))
      && (forall x, y | x in targets && y in m'.vals && m'.vals[y].alive && y !in targets ::
            m.vals[x].fileCount <= m.vals[y].fileCount)
  {
    var m' := AfterSweep(m, now, timeout, disconnected);
    LeastLoadedChoice(m', IsAlive(m'), 3);
    forall x | x in m'.vals ensures m'.vals[x].fileCount == m.vals[x].fileCount {
      SweepEffect(m, now, timeout, disconnected, x);
    }
    forall x | x in m'.vals && m'.vals[x].alive ensures !Dies(m.vals[x], now, timeout, x in disconnected) {
      SweepEffect(m, now, timeout, disconnected, x);
    }
  }
}
