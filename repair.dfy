/**
 * The master's repair decisions (master/file_mesh.js): how the replicas of a file are
 * compared, which repair `validateCorrectness` picks for a file, and which node each repair
 * procedure addresses with which request. A procedure's outcome is the request it sends or
 * the reason it gives up; whether the node then acknowledges it is not part of the decision.
 */
module Repair {
  import opened Dicts
  import opened Ordering
  import opened Records
  import opened MeshBuild
  import opened NodeRegistry

  /** The disagreements `metadataMatchProblem` names: "version", "metacrc" and "filecrc". */
  datatype Problem = Version | MetaCrc | FileCrc

  /** An entry whose node map is well formed and names at least one node. */
  ghost predicate Held(e: MeshEntry) {
    e.nodes.Valid() && e.nodes.keys != []
  }

  /** The record of the first node listed for a file. */
  function First(e: MeshEntry): FileRecord
    requires Held(e)
  {
    e.nodes.vals[e.nodes.keys[0]]
  }

  // ---------------------------------------------------------------- metadataMatchProblem

  /** Replica `r` agrees with `first` on version (missing counts as 0), meta checksum and content checksum. */
  predicate Agrees(first: FileRecord, r: FileRecord) {
    OrZero(r.version) == OrZero(first.version) && r.metaCRC == first.metaCRC && r.fileCRC == first.fileCRC
  }

  /** How replica `r` differs from `first`: the version is checked before the meta, the meta before the content. */
  function Mismatch(first: FileRecord, r: FileRecord): (p: Option<Problem>)
    ensures p.None? <==> Agrees(first, r)
  {
    if OrZero(r.version) != OrZero(first.version) then Some(Version)
    else if r.metaCRC != first.metaCRC then Some(MetaCrc)
    else if r.fileCRC != first.fileCRC then Some(FileCrc)
    else None
  }

  /** The mismatch of the first replica among `ks` that disagrees with `first`. */
  function FirstMismatch(first: FileRecord, nodes: map<NodeId, FileRecord>, ks: seq<NodeId>): Option<Problem>
    requires forall k | k in ks :: k in nodes
  {
    if ks == [] then None
    else if Mismatch(first, nodes[ks[0]]).Some? then Mismatch(first, nodes[ks[0]])
    else FirstMismatch(first, nodes, ks[1..])
  }

  /**
   * No problem is reported exactly when every replica agrees with `first`; otherwise the
   * report is how the first disagreeing replica differs, all replicas before it agreeing.
   */
  lemma {:induction false} FirstMismatchSpec(first: FileRecord, nodes: map<NodeId, FileRecord>, ks: seq<NodeId>)
    requires forall k | k in ks :: k in nodes
    ensures FirstMismatch(first, nodes, ks).None? <==> forall k | k in ks :: Agrees(first, nodes[k])
    ensures FirstMismatch(first, nodes, ks).Some? ==>
      exists i | 0 <= i < |ks| ::
        && Mismatch(first, nodes[ks[i]]) == FirstMismatch(first, nodes, ks)
        && forall j | 0 <= j < i :: Agrees(first, nodes[ks[j]])
  {
    if ks != [] {
      var rest := ks[1..];
      assert ks == [ks[0]] + rest;
      FirstMismatchSpec(first, nodes, rest);
      if Mismatch(first, nodes[ks[0]]).None? && FirstMismatch(first, nodes, rest).Some? {
        var i :| 0 <= i < |rest| && Mismatch(first, nodes[rest[i]]) == FirstMismatch(first, nodes, rest)
          && forall j | 0 <= j < i :: Agrees(first, nodes[rest[j]]);
        assert ks[i + 1] == rest[i];
        forall j | 0 <= j < i + 1 ensures Agrees(first, nodes[ks[j]]) {
          if j > 0 {
            assert ks[j] == rest[j - 1];
          }
        }
      }
    }
  }

  /**
   * `metadataMatchProblem` on a file's entry: compares every node after the first with the
   * first, and reports the first disagreement found, or nothing.
   */
  method MetadataMatchProblem(e: MeshEntry) returns (p: Option<Problem>)
    requires Held(e)
    ensures p == FirstMismatch(First(e), e.nodes.vals, e.nodes.keys[1..])
  {
    var nodes := e.nodes.keys;
    var first := e.nodes.vals[nodes[0]];
    var i := 1;
    while i < |nodes|
      invariant 1 <= i <= |nodes|
      invariant FirstMismatch(first, e.nodes.vals, nodes[1..]) == FirstMismatch(first, e.nodes.vals, nodes[i..])
    {
      var r := e.nodes.vals[nodes[i]];
      assert nodes[i..][0] == nodes[i] && nodes[i..][1..] == nodes[i + 1..];
      if OrZero(r.version) != OrZero(first.version) {
        return Some(Version);
      }
      if r.metaCRC != first.metaCRC {
        return Some(MetaCrc);
      }
      if r.fileCRC != first.fileCRC {
        return Some(FileCrc);
      }
      i := i + 1;
    }
    return None;
  }

  // ---------------------------------------------------------------- validateCorrectness, one file

  /** How long after a holder (re)starts a file short of replicas is left alone, in milliseconds. */
  const WarmUp := 15 * 1000

  /** The number of replicas the master keeps of every file. */
  const Replicas := 3

  /** Every node holding the file is registered (the registry never forgets a node). */
  ghost predicate Registered(reg: Dict<NodeState>, holders: seq<NodeId>) {
    forall n | n in holders :: n in reg.vals
  }

  /** The earliest `lastStart` among the holders (the head of the sorted start times). */
  function OldestStart(reg: Dict<NodeState>, holders: seq<NodeId>): (t: int)
    requires holders != [] && Registered(reg, holders)
    ensures exists n | n in holders :: t == reg.vals[n].lastStart
    ensures forall n | n in holders :: t <= reg.vals[n].lastStart
  {
    if |holders| == 1 then reg.vals[holders[0]].lastStart
    else
      var rest := OldestStart(reg, holders[1..]);
      assert forall n | n in holders[1..] :: n in holders;
      assert forall n | n in holders :: n == holders[0] || n in holders[1..];
      if reg.vals[holders[0]].lastStart <= rest then reg.vals[holders[0]].lastStart else rest
  }

  /** What one iteration of `validateCorrectness` does with a file. */
  datatype Outcome =
    | Busy                        // locked by a repair in progress: skipped
    | Unheld                      // no holder to take a start time from: skipped, left locked
    | WarmingUp                   // short of replicas, but a holder started recently: skipped, left locked
    | RemoveReplica               // more than three replicas: fixingProcedureDel
    | AddReplica                  // fewer than three replicas: fixingProcedureAdd
    | FixMismatch(problem: Problem) // three replicas that disagree: fixingProcedureFix
    | NothingToFix                // three agreeing replicas: left locked

  /** The outcomes that run a repair procedure, count as an update and release the lock. */
  predicate IsRepair(o: Outcome) {
    o.RemoveReplica? || o.AddReplica? || o.FixMismatch?
  }

  function Decide(e: MeshEntry, reg: Dict<NodeState>, now: int): Outcome
    requires e.nodes.Valid() && Registered(reg, e.nodes.keys)
  {
    var n := |e.nodes.keys|;
    if e.locked then Busy
    else if n == 0 then Unheld
    else if now - OldestStart(reg, e.nodes.keys) < WarmUp && n < Replicas then WarmingUp
    else if n > Replicas then RemoveReplica
    else if n < Replicas then AddReplica
    else match FirstMismatch(First(e), e.nodes.vals, e.nodes.keys[1..])
      case Some(p) => FixMismatch(p)
      case None => NothingToFix
  }

  /**
   * The decision for an unlocked file: more than three replicas are thinned out; fewer than
   * three are topped up unless every holder (re)started less than 15 s ago, the oldest start
   * being the one compared; exactly three are repaired exactly when some replica disagrees
   * with the first. A locked file is skipped.
   */
  lemma DecideCases(e: MeshEntry, reg: Dict<NodeState>, now: int)
    requires e.nodes.Valid() && Registered(reg, e.nodes.keys)
    ensures var d, ks := Decide(e, reg, now), e.nodes.keys;
      && (d == Busy <==> e.locked)
      && (d == Unheld <==> !e.locked && ks == [])
      && (d == WarmingUp <==>
            !e.locked && 0 < |ks| < 3 && forall h | h in ks :: now - reg.vals[h].lastStart < 15000)
      && (d == RemoveReplica <==> !e.locked && |ks| > 3)
      && (d == AddReplica <==>
            !e.locked && 0 < |ks| < 3 && exists h | h in ks :: now - reg.vals[h].lastStart >= 15000)
      && (d.FixMismatch? <==> !e.locked && |ks| == 3 && exists h | h in ks :: !Agrees(First(e), e.nodes.vals[h]))
      && (d == NothingToFix <==> !e.locked && |ks| == 3 && forall h | h in ks :: Agrees(First(e), e.nodes.vals[h]))
  {
    var ks := e.nodes.keys;
    if ks != [] {
      OldestStartAge(reg, ks, now);
      AllAgree(e);
    }
  }

  /** The oldest start is recent exactly when every holder's start is. */
  lemma OldestStartAge(reg: Dict<NodeState>, holders: seq<NodeId>, now: int)
    requires holders != [] && Registered(reg, holders)
    ensures now - OldestStart(reg, holders) < WarmUp <==> forall h | h in holders :: now - reg.vals[h].lastStart < 15000
  {
    var t := OldestStart(reg, holders);
    var m :| m in holders && t == reg.vals[m].lastStart;
  }

  /** Comparing with the first replica finds nothing exactly when all replicas agree with it. */
  lemma AllAgree(e: MeshEntry)
    requires Held(e)
    ensures FirstMismatch(First(e), e.nodes.vals, e.nodes.keys[1..]).None? <==>
      forall h | h in e.nodes.keys :: Agrees(First(e), e.nodes.vals[h])
  {
    var ks := e.nodes.keys;
    assert forall k | k in ks[1..] :: k in ks;
    FirstMismatchSpec(First(e), e.nodes.vals, ks[1..]);
    assert forall h | h in ks :: h == ks[0] || h in ks[1..];
  }

  // ---------------------------------------------------------------- what a repair sends

  /** Why a repair procedure gives up without sending anything. */
  datatype Refusal =
    | FetchFailed       // the FileQuery for the complete file data failed
    | NoAvailableNode   // "No available nodes to store this file"

  /** A repair procedure's outcome: one request to one node, a refusal, or (no problem found) nothing. */
  datatype Dispatch = Send(target: NodeId, request: Request) | Refused(reason: Refusal) | NoRequest

  /** A live registered node that does not hold the file yet. */
  function Spare(reg: Dict<NodeState>, holders: seq<NodeId>): NodeId -> bool {
    id => id in reg.vals && reg.vals[id].alive && id !in holders
  }

  /** `fixingProcedureAdd`'s choice: the least loaded spare node, if there is one. */
  function AddTarget(reg: Dict<NodeState>, holders: seq<NodeId>): Option<NodeId> {
    var chosen := LeastLoaded(reg, Spare(reg, holders), 1);
    if chosen == [] then None else Some(chosen[0])
  }

  /**
   * A new replica goes to a live node that does not hold the file and carries no more files
   * than any other such node; there is none exactly when every live node already holds it.
   */
  lemma AddTargetChoice(reg: Dict<NodeState>, holders: seq<NodeId>)
    requires reg.Valid()
    ensures AddTarget(reg, holders).None? <==> forall id | id in reg.vals :: !reg.vals[id].alive || id in holders
    ensures AddTarget(reg, holders).Some? ==>
      var t := AddTarget(reg, holders).value;
      && t in reg.vals && reg.vals[t].alive && t !in holders
      && forall y | y in reg.vals && reg.vals[y].alive && y !in holders :: reg.vals[t].fileCount <= reg.vals[y].fileCount
  {
    AddTargetNone(reg, holders);
    if AddTarget(reg, holders).Some? {
      AddTargetLeast(reg, holders);
    }
  }

  lemma AddTargetNone(reg: Dict<NodeState>, holders: seq<NodeId>)
    requires reg.Valid()
    ensures AddTarget(reg, holders).None? <==> forall id | id in reg.vals :: !Spare(reg, holders)(id)
  {
    var spare := Spare(reg, holders);
    var cands := Filter(reg.keys, spare);
    assert |SortBy(cands, Load(reg))| == |cands|;
    FilterMembers(reg.keys, spare);
    if cands != [] {
      assert cands[0] in cands;
    }
  }

  lemma AddTargetLeast(reg: Dict<NodeState>, holders: seq<NodeId>)
    requires reg.Valid() && AddTarget(reg, holders).Some?
    ensures var t := AddTarget(reg, holders).value;
      && Spare(reg, holders)(t)
      && forall y | y in reg.vals && Spare(reg, holders)(y) :: reg.vals[t].fileCount <= reg.vals[y].fileCount
  {
    var spare := Spare(reg, holders);
    var chosen := LeastLoaded(reg, spare, 1);
    LeastLoadedChoice(reg, spare, 1);
    assert chosen[0] in chosen;
    forall y | y in reg.vals && spare(y) ensures reg.vals[chosen[0]].fileCount <= reg.vals[y].fileCount {
      if y != chosen[0] {
        assert y !in chosen;
      }
    }
  }

  /** The ADD request that copies the fetched replica `view` to a new node. */
  function CopyRequest(view: FileView): AddRequest
    requires view.data.Some?
  {
    AddRequest(view.id, view.version, view.data.value, Some(view.meta), None)
  }

  /** Answers to FileQuery carry the content, which the node includes whenever it is asked for. */
  ghost predicate WithContent(answers: map<NodeId, FileView>) {
    forall n | n in answers :: answers[n].data.Some?
  }

  /**
   * `fixingProcedureAdd`: fetch the complete file from its first holder (`answers` holds the
   * FileQuery answers that arrive), then ADD a copy on the chosen spare node.
   */
  function AddProcedure(e: MeshEntry, reg: Dict<NodeState>, answers: map<NodeId, FileView>): (d: Dispatch)
    requires Held(e) && WithContent(answers)
    ensures e.nodes.keys[0] !in answers ==> d == Refused(FetchFailed)
    ensures e.nodes.keys[0] in answers ==> (d == Refused(NoAvailableNode) <==> AddTarget(reg, e.nodes.keys).None?)
    ensures d.Send? ==>
      d.target == AddTarget(reg, e.nodes.keys).value && d.request == Add(CopyRequest(answers[e.nodes.keys[0]]))
  {
    var source := e.nodes.keys[0];
    if source !in answers then Refused(FetchFailed)
    else match AddTarget(reg, e.nodes.keys)
      case None => Refused(NoAvailableNode)
      case Some(t) => Send(t, Add(CopyRequest(answers[source])))
  }

  /** The sort key of `fixingProcedureDel`: the busiest node first. */
  function Busiest(reg: Dict<NodeState>): NodeId -> int {
    id => if id in reg.vals then -reg.vals[id].fileCount else 0
  }

  /** `fixingProcedureDel`: a forced DELETE to the holder carrying the most files. */
  function DelProcedure(fileId: FileId, e: MeshEntry, reg: Dict<NodeState>): (d: Dispatch)
    requires e.nodes.keys != []
  {
    var target := SortBy(e.nodes.keys, Busiest(reg))[0];
    Send(target, Delete(DeleteRequest(fileId, None, true)))
  }

  /** The surplus replica removed is on a holder whose file count no other holder exceeds; the removal is forced. */
  lemma DelTargetChoice(fileId: FileId, e: MeshEntry, reg: Dict<NodeState>)
    requires e.nodes.keys != [] && Registered(reg, e.nodes.keys)
    ensures var d := DelProcedure(fileId, e, reg);
      && d.Send? && d.target in e.nodes.keys && d.request == Delete(DeleteRequest(fileId, None, true))
      && forall h | h in e.nodes.keys :: reg.vals[h].fileCount <= reg.vals[d.target].fileCount
  {
    var ks := e.nodes.keys;
    var key := Busiest(reg);
    var t := SortBy(ks, key)[0];
    SortByMembers(ks, key);
    assert t in ks;
    forall h | h in ks ensures reg.vals[h].fileCount <= reg.vals[t].fileCount {
      SortByFirstIsLeast(ks, key, h);
    }
  }

  // ---------------------------------------------------------------- fixingProcedureFix

  /** The replica chosen to copy from, the replica to overwrite, and what they disagree on. */
  datatype FixPlan = FixPlan(correct: NodeId, bad: NodeId, problem: Problem)

  /**
   * The sort key of the version check: the newest version (missing counts as 0) first, as
   * the comparator at master/file_mesh.js:282 evidently intends.
   */
  function NewestFirst(nodes: map<NodeId, FileRecord>): NodeId -> int {
    id => if id in nodes then -OrZero(nodes[id].version) else 0
  }

  /** The holders, newest version first; holders with equal versions keep their order. */
  function VersionOrder(e: MeshEntry): seq<NodeId> {
    SortBy(e.nodes.keys, NewestFirst(e.nodes.vals))
  }

  /** The first holder in version order has the newest version of all, the last the oldest. */
  lemma VersionOrderEnds(e: MeshEntry)
    requires Held(e)
    ensures var order, vs := VersionOrder(e), e.nodes.vals;
      && |order| == |e.nodes.keys| && order[0] in vs && order[|order| - 1] in vs
      && forall k | k in e.nodes.keys ::
           OrZero(vs[order[|order| - 1]].version) <= OrZero(vs[k].version) <= OrZero(vs[order[0]].version)
  {
    var ks, vs := e.nodes.keys, e.nodes.vals;
    var key := NewestFirst(vs);
    var order := SortBy(ks, key);
    SortByMembers(ks, key);
    assert order[0] in order && order[|order| - 1] in order;
    forall k | k in ks
      ensures OrZero(vs[order[|order| - 1]].version) <= OrZero(vs[k].version) <= OrZero(vs[order[0]].version)
    {
      SortByFirstIsLeast(ks, key, k);
      SortByLastIsGreatest(ks, key, k);
    }
  }

  /** How often `v` occurs among `values`. */
  function Count(values: seq<Crc>, v: Crc): nat {
    multiset(values)[v]
  }

  /** The sort key of the frequency table: the most frequent value first. */
  function MoreFrequent(freq: map<Crc, nat>): Crc -> int {
    v => if v in freq then -(freq[v] as int) else 0
  }

  /**
   * The frequency table of the CRCs and the head of its entries sorted by count: a value
   * that occurs at least as often as any other.
   */
  method MostFrequent(values: seq<Crc>) returns (best: Crc)
    requires values != []
    ensures best in values
    ensures forall v | v in values :: Count(values, v) <= Count(values, best)
  {
    var freq: Dict<nat> := EmptyDict();
    for i := 0 to |values|
      invariant freq.Valid()
      invariant forall v :: v in freq.vals <==> v in values[..i]
      invariant forall v | v in freq.vals :: freq.vals[v] == Count(values[..i], v)
    {
      var v := values[i];
      assert values[..i + 1] == values[..i] + [v];
      freq := freq.Put(v, if v in freq.vals then freq.vals[v] + 1 else 1);
    }
    assert values[..|values|] == values;
    var key := MoreFrequent(freq.vals);
    var byFrequency := SortBy(freq.keys, key);
    SortByMembers(freq.keys, key);
    assert values[0] in freq.keys;
    best := byFrequency[0];
    forall v | v in values ensures Count(values, v) <= Count(values, best) {
      SortByFirstIsLeast(freq.keys, key, v);
    }
  }

  /** The CRCs of the holders, in order (`nodes.map(...)`). */
  function Crcs(ks: seq<NodeId>, crc: NodeId -> Crc): (values: seq<Crc>)
    ensures |values| == |ks| && forall i | 0 <= i < |ks| :: values[i] == crc(ks[i])
  {
    seq(|ks|, i requires 0 <= i < |ks| => crc(ks[i]))
  }

  function HasCrc(crc: NodeId -> Crc, v: Crc): NodeId -> bool {
    id => crc(id) == v
  }

  function LacksCrc(crc: NodeId -> Crc, v: Crc): NodeId -> bool {
    id => crc(id) != v
  }

  function MetaCrcOf(nodes: map<NodeId, FileRecord>): NodeId -> Crc {
    id => if id in nodes then nodes[id].metaCRC else ""
  }

  function FileCrcOf(nodes: map<NodeId, FileRecord>): NodeId -> Crc {
    id => if id in nodes then nodes[id].fileCRC else ""
  }

  /**
   * A majority repair: the correct holder carries a CRC no other CRC outnumbers and is the
   * first holder carrying it; the bad holder is the first holder carrying another CRC.
   */
  ghost predicate MajorityChoice(ks: seq<NodeId>, crc: NodeId -> Crc, p: FixPlan) {
    var values, good := Crcs(ks, crc), crc(p.correct);
    && p.correct in ks && p.bad in ks && crc(p.bad) != good
    && (forall k | k in ks :: Count(values, crc(k)) <= Count(values, good))
    && Filter(ks, HasCrc(crc, good)) != [] && p.correct == Filter(ks, HasCrc(crc, good))[0]
    && Filter(ks, LacksCrc(crc, good)) != [] && p.bad == Filter(ks, LacksCrc(crc, good))[0]
  }

  /**
   * The CRC check of `fixingProcedureFix` (once for the meta CRCs, once for the content
   * CRCs): the sorted CRCs' ends differ exactly when the holders disagree, and then the most
   * frequent CRC decides which holder is correct and which is bad.
   */
  method MajorityPlan(ks: seq<NodeId>, crc: NodeId -> Crc, problem: Problem) returns (plan: Option<FixPlan>)
    requires ks != []
    ensures plan.None? <==> forall k | k in ks :: crc(k) == crc(ks[0])
    ensures plan.Some? ==> plan.value.problem == problem && MajorityChoice(ks, crc, plan.value)
  {
    var values := Crcs(ks, crc);
    var sorted := SortStrings(values);
    SortedCrcs(ks, crc);
    if sorted[0] == sorted[|sorted| - 1] {
      plan := None;
    } else {
      var best := MostFrequent(sorted);
      var other := if sorted[0] != best then sorted[0] else sorted[|sorted| - 1];
      assert other in sorted;
      MajorityCounts(ks, crc, best);
      MajorityChoiceOf(ks, crc, best, other, problem);
      var holding, lacking := Filter(ks, HasCrc(crc, best)), Filter(ks, LacksCrc(crc, best));
      plan := Some(FixPlan(holding[0], lacking[0], problem));
    }
  }

  /** Taking the first holder with a most frequent CRC and the first without it is a majority repair. */
  lemma MajorityChoiceOf(ks: seq<NodeId>, crc: NodeId -> Crc, best: Crc, other: Crc, problem: Problem)
    requires best in Crcs(ks, crc) && other in Crcs(ks, crc) && other != best
    requires forall k | k in ks :: Count(Crcs(ks, crc), crc(k)) <= Count(Crcs(ks, crc), best)
    ensures var holding, lacking := Filter(ks, HasCrc(crc, best)), Filter(ks, LacksCrc(crc, best));
      && holding != [] && lacking != [] && crc(holding[0]) == best
      && MajorityChoice(ks, crc, FixPlan(holding[0], lacking[0], problem))
  {
    var values := Crcs(ks, crc);
    var i :| 0 <= i < |ks| && values[i] == best;
    var j :| 0 <= j < |ks| && values[j] == other;
    FilterFirst(ks, HasCrc(crc, best), ks[i]);
    FilterFirst(ks, LacksCrc(crc, best), ks[j]);
  }

  /** A CRC most frequent among the sorted CRCs is most frequent among the holders. */
  lemma MajorityCounts(ks: seq<NodeId>, crc: NodeId -> Crc, best: Crc)
    requires ks != []
    requires var sorted := SortStrings(Crcs(ks, crc));
      forall v | v in sorted :: Count(sorted, v) <= Count(sorted, best)
    ensures forall k | k in ks :: Count(Crcs(ks, crc), crc(k)) <= Count(Crcs(ks, crc), best)
  {
    var values, sorted := Crcs(ks, crc), SortStrings(Crcs(ks, crc));
    SortStringsSorted(values);
    SortStringsMembers(values);
    forall k | k in ks ensures Count(values, crc(k)) <= Count(values, best) {
      var t :| 0 <= t < |ks| && ks[t] == k;
      assert values[t] in sorted;
    }
  }

  /**
   * The sorted CRCs hold the holders' CRCs as often as the holders do, and their ends are
   * equal exactly when all holders carry the first holder's CRC.
   */
  lemma SortedCrcs(ks: seq<NodeId>, crc: NodeId -> Crc)
    requires ks != []
    ensures var values, sorted := Crcs(ks, crc), SortStrings(Crcs(ks, crc));
      && |sorted| == |ks|
      && (forall v :: Count(sorted, v) == Count(values, v))
      && (forall v :: v in sorted <==> v in values)
      && (sorted[0] == sorted[|sorted| - 1] <==> forall k | k in ks :: crc(k) == crc(ks[0]))
  {
    var values := Crcs(ks, crc);
    var sorted := SortStrings(values);
    SortStringsSorted(values);
    SortStringsMembers(values);
    assert |sorted| == |multiset(sorted)| == |multiset(values)| == |values|;
    SortedEndsEqual(sorted);
    if sorted[0] == sorted[|sorted| - 1] {
      forall k | k in ks ensures crc(k) == crc(ks[0]) {
        var i :| 0 <= i < |ks| && ks[i] == k;
        assert values[i] in sorted && values[0] in sorted;
      }
    } else {
      var lo, hi := sorted[0], sorted[|sorted| - 1];
      assert lo in values && hi in values;
      var a :| 0 <= a < |ks| && values[a] == lo;
      var b :| 0 <= b < |ks| && values[b] == hi;
      assert crc(ks[a]) != crc(ks[b]);
    }
  }

  /**
   * What the choice of `fixingProcedureFix` promises: nothing exactly when every replica
   * agrees with the first; a version disagreement first (newest replica correct, oldest bad);
   * otherwise, with all versions equal, a meta CRC disagreement, then a content CRC
   * disagreement, each settled by the majority.
   */
  ghost predicate FixPlanned(e: MeshEntry, plan: Option<FixPlan>)
    requires Held(e)
  {
    var ks, vs := e.nodes.keys, e.nodes.vals;
    && (plan.None? <==> forall k | k in ks :: Agrees(First(e), vs[k]))
    && (plan.Some? && plan.value.problem == Version ==>
          var p := plan.value;
          && p.correct in ks && p.bad in ks
          && OrZero(vs[p.bad].version) < OrZero(vs[p.correct].version)
          && forall k | k in ks :: OrZero(vs[p.bad].version) <= OrZero(vs[k].version) <= OrZero(vs[p.correct].version))
    && (plan.Some? && plan.value.problem != Version ==>
          forall k | k in ks :: OrZero(vs[k].version) == OrZero(First(e).version))
    && (plan.Some? && plan.value.problem == MetaCrc ==> MajorityChoice(ks, MetaCrcOf(vs), plan.value))
    && (plan.Some? && plan.value.problem == FileCrc ==>
          && (forall k | k in ks :: vs[k].metaCRC == First(e).metaCRC)
          && MajorityChoice(ks, FileCrcOf(vs), plan.value))
  }

  /** The choice of `fixingProcedureFix`, with the version comparator corrected to newest first. */
  method FixTargets(e: MeshEntry) returns (plan: Option<FixPlan>)
    requires Held(e)
    ensures FixPlanned(e, plan)
  {
    var ks, vs := e.nodes.keys, e.nodes.vals;
    var nodes := VersionOrder(e);
    VersionOrderEnds(e);
    SortByMembers(ks, NewestFirst(vs));
    var newest, oldest := nodes[0], nodes[|nodes| - 1];
    if OrZero(vs[newest].version) != OrZero(vs[oldest].version) {
      return Some(FixPlan(newest, oldest, Version));
    }
    SameVersions(e);
    plan := MajorityPlan(nodes, MetaCrcOf(vs), MetaCrc);
    if plan.None? {
      plan := MajorityPlan(nodes, FileCrcOf(vs), FileCrc);
    }
    assert nodes[0] == ks[0];
  }

  /**
   * When the newest and the oldest version are equal, all versions are, and the (stable)
   * version sort leaves the holders in their order.
   */
  lemma SameVersions(e: MeshEntry)
    requires Held(e)
    requires var order, vs := VersionOrder(e), e.nodes.vals;
      && |order| == |e.nodes.keys| && order[0] in vs && order[|order| - 1] in vs
      && OrZero(vs[order[0]].version) == OrZero(vs[order[|order| - 1]].version)
    ensures forall k | k in e.nodes.keys :: OrZero(e.nodes.vals[k].version) == OrZero(First(e).version)
    ensures VersionOrder(e) == e.nodes.keys
  {
    var ks, vs := e.nodes.keys, e.nodes.vals;
    VersionOrderEnds(e);
    assert ks[0] in ks;
    var key := NewestFirst(vs);
    forall i | 0 <= i < |ks| ensures key(ks[i]) == key(ks[0]) {
      assert ks[i] in ks;
    }
    SortByEqualKeys(ks, key);
  }

  /**
   * The UPDATE that overwrites the bad replica with the fetched correct one: its version and
   * meta, its status and dates with falsy values sent as `null`, and its content unless only
   * the meta was wrong.
   */
  function UpdatePayload(view: FileView, problem: Problem): (req: UpdateRequest)
    requires view.data.Some?
    ensures req.id == view.id && req.version == view.version && req.meta == Some(view.meta)
    ensures req.data.None? <==> problem == MetaCrc
    ensures req.data.Some? ==> req.data == view.data
    ensures req.status.Some? <==> view.status != ""
    ensures req.status.Some? ==> req.status.value == view.status
    ensures req.dateAdded.Some? <==> view.dateAdded != 0
    ensures req.dateAdded.Some? ==> req.dateAdded.value == view.dateAdded
    ensures req.dateUpdated.Some? <==> view.dateUpdated != 0
    ensures req.dateUpdated.Some? ==> req.dateUpdated.value == view.dateUpdated
    ensures req.dateDeleted.Some? <==> TruthyNumber(view.dateDeleted)
    ensures req.dateDeleted.Some? ==> req.dateDeleted == view.dateDeleted
  {
    UpdateRequest(
      view.id,
      view.version,
      Some(view.meta),
      if view.status != "" then Some(view.status) else None,
      if view.dateAdded != 0 then Some(view.dateAdded) else None,
      if view.dateUpdated != 0 then Some(view.dateUpdated) else None,
      if TruthyNumber(view.dateDeleted) then view.dateDeleted else None,
      if problem != MetaCrc then view.data else None)
  }

  /**
   * `fixingProcedureFix` after the choice: nothing to send without a problem; otherwise
   * fetch the complete file from the correct holder and UPDATE the bad one with it.
   */
  function FixDispatch(plan: Option<FixPlan>, answers: map<NodeId, FileView>): (d: Dispatch)
    requires WithContent(answers)
    ensures d == NoRequest <==> plan.None?
    ensures d == Refused(FetchFailed) <==> plan.Some? && plan.value.correct !in answers
    ensures d.Send? ==>
      plan.Some? && d.target == plan.value.bad && d.request == Update(UpdatePayload(answers[plan.value.correct], plan.value.problem))
  {
    match plan
    case None => NoRequest
    case Some(p) =>
      if p.correct in answers then Send(p.bad, Update(UpdatePayload(answers[p.correct], p.problem)))
      else Refused(FetchFailed)
  }

  /**
   * `fixingProcedureFix` in full: choose the replicas, then fetch the correct one and send the
   * UPDATE to the bad one, or refuse when the fetch fails.
   */
  method FixingProcedureFix(e: MeshEntry, answers: map<NodeId, FileView>) returns (d: Dispatch)
    requires Held(e) && WithContent(answers)
    ensures exists plan :: FixPlanned(e, plan) && d == FixDispatch(plan, answers)
    ensures d == NoRequest <==> forall k | k in e.nodes.keys :: Agrees(First(e), e.nodes.vals[k])
    ensures d.Send? ==> d.target in e.nodes.keys && d.request.Update?
    ensures d.Send? ==>
      (d.request.update.data.None? <==>
        && (forall k | k in e.nodes.keys :: OrZero(e.nodes.vals[k].version) == OrZero(First(e).version))
        && exists k | k in e.nodes.keys :: e.nodes.vals[k].metaCRC != First(e).metaCRC)
  {
    var plan := FixTargets(e);
    d := FixDispatch(plan, answers);
    assert FixPlanned(e, plan) && d == FixDispatch(plan, answers);
    if d.Send? {
      var p := plan.value;
      var vs := e.nodes.vals;
      if p.problem == MetaCrc {
        assert MetaCrcOf(vs)(p.bad) != MetaCrcOf(vs)(p.correct);
        assert vs[p.bad].metaCRC != First(e).metaCRC || vs[p.correct].metaCRC != First(e).metaCRC;
      } else if p.problem == Version {
        assert OrZero(vs[p.bad].version) != OrZero(First(e).version) || OrZero(vs[p.correct].version) != OrZero(First(e).version);
      }
    }
  }

  // ---------------------------------------------------------------- the comparator as written

  /**
   * The comparator at master/file_mesh.js:282 as JavaScript parses it,
   * `b.version || (0 - a.version) || 0`: `b`'s version whenever it is truthy.
   */
  function VersionComparatorAsWritten(va: Option<int>, vb: Option<int>): int {
    if TruthyNumber(vb) then vb.value
    else if TruthyNumber(va) then -va.value
    else 0
  }

  /**
   * With positive versions the comparator answers "in order" for every adjacent pair, so
   * the key order is a single ascending run, which `Array.prototype.sort` leaves unchanged.
   */
  lemma VersionComparatorKeepsOrder(e: MeshEntry)
    requires Held(e) && forall k | k in e.nodes.keys :: OrZero(e.nodes.vals[k].version) > 0
    ensures forall i | 0 <= i < |e.nodes.keys| - 1 ::
      var a, b := e.nodes.keys[i + 1], e.nodes.keys[i];
      VersionComparatorAsWritten(e.nodes.vals[a].version, e.nodes.vals[b].version) > 0
  {
    forall i | 0 <= i < |e.nodes.keys| - 1
      ensures VersionComparatorAsWritten(e.nodes.vals[e.nodes.keys[i + 1]].version, e.nodes.vals[e.nodes.keys[i]].version) > 0
    {
      assert e.nodes.keys[i] in e.nodes.keys;
    }
  }

  /**
   * The version check as written, for positive versions, where the comparator leaves the
   * holders in key order: the first holder is taken as correct and the last as bad, and a
   * version repair happens exactly when those two differ.
   */
  function VersionPlanAsWritten(e: MeshEntry): (plan: Option<FixPlan>)
    requires Held(e) && forall k | k in e.nodes.keys :: OrZero(e.nodes.vals[k].version) > 0
    ensures var ks, vs := e.nodes.keys, e.nodes.vals;
      plan.None? <==> OrZero(vs[ks[0]].version) == OrZero(vs[ks[|ks| - 1]].version)
    ensures plan.Some? ==> plan.value.correct == e.nodes.keys[0] && plan.value.bad == e.nodes.keys[|e.nodes.keys| - 1]
  {
    var ks, vs := e.nodes.keys, e.nodes.vals;
    if OrZero(vs[ks[0]].version) != OrZero(vs[ks[|ks| - 1]].version) then Some(FixPlan(ks[0], ks[|ks| - 1], Version))
    else None
  }

  /** A replica of file "f" at version `v`, all else equal. */
  function ReplicaAt(v: int): FileRecord {
    FileRecord("f", Some(v), EmptyDict(), false, "live", 0, 0, None, "c", "m")
  }

  /**
   * Holders a, b, c at versions 1, 2, 2: as written, the version-1 replica is taken as
   * correct and the version-2 replica on c is overwritten with it; the corrected order takes
   * b (version 2) as correct and a (version 1) as bad.
   */
  lemma StaleReplicaPreferred()
    ensures var e := StaleExample();
      && Held(e)
      && VersionPlanAsWritten(e) == Some(FixPlan("a", "c", Version))
      && OrZero(e.nodes.vals["a"].version) < OrZero(e.nodes.vals["c"].version)
  {
  }

  /** On the same holders the corrected version order puts a version-2 replica first and a last. */
  lemma StaleExampleCorrected()
    ensures var e, order := StaleExample(), VersionOrder(StaleExample());
      && |order| == 3 && order[0] in e.nodes.vals && OrZero(e.nodes.vals[order[0]].version) == 2 && order[2] == "a"
  {
    var e := StaleExample();
    assert Held(e);
    VersionOrderEnds(e);
    var order := VersionOrder(e);
    assert "a" in e.nodes.keys;
    assert order[0] in e.nodes.keys && order[2] in e.nodes.keys;
  }

  /**
   * Holders a, b, c at versions 1, 2, 1: `metadataMatchProblem` reports a version mismatch,
   * yet as written the first and last holders agree on their version, so no version repair
   * is chosen.
   */
  lemma VersionMismatchMissed()
    ensures var e := MissedExample();
      && Held(e)
      && FirstMismatch(First(e), e.nodes.vals, e.nodes.keys[1..]) == Some(Version)
      && VersionPlanAsWritten(e).None?
  {
    var e := MissedExample();
    assert e.nodes.keys[1..] == ["b", "c"];
  }

  /** On the same holders any plan meeting the corrected choice repairs the version from b. */
  lemma {:induction false} MissedExampleCorrected(plan: Option<FixPlan>)
    requires Held(MissedExample()) && FixPlanned(MissedExample(), plan)
    ensures plan.Some? && plan.value.problem == Version && plan.value.correct == "b"
  {
    var e := MissedExample();
    var vs := e.nodes.vals;
    assert "b" in e.nodes.keys && !Agrees(First(e), vs["b"]);
    assert OrZero(vs["b"].version) <= OrZero(vs[plan.value.correct].version);
  }

  /** Three holders a, b, c of one file, at versions 1, 2 and 1. */
  function MissedExample(): MeshEntry {
    MeshEntry(EmptyDict(), Dict(["a", "b", "c"], map["a" := ReplicaAt(1), "b" := ReplicaAt(2), "c" := ReplicaAt(1)]), false)
  }

  /** Three holders a, b, c of one file, at versions 1, 2 and 2. */
  function StaleExample(): MeshEntry {
    MeshEntry(EmptyDict(), Dict(["a", "b", "c"], map["a" := ReplicaAt(1), "b" := ReplicaAt(2), "c" := ReplicaAt(2)]), false)
  }
}
