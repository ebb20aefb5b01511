# file-mesh: a Dafny model of the replication core

file-mesh is a small distributed file store. A master keeps a registry of storage nodes, which
it learns about through heartbeats and sweeps with a timeout-based failure detector. It also
keeps the last file index each node reported, and from those indexes it derives a global
*mesh*: for every file id, the nodes that hold a replica and the record each one reported.

A periodic validation pass walks the mesh and repairs files:
- it adds a replica to a file that has fewer than three;
- it removes one from a file that has more than three;
- for a file with exactly three replicas that disagree on version, meta checksum or content
  checksum, it overwrites a bad replica with a correct one.

Each storage node keeps its own index of records (`memory.files`) next to the stored contents.
It applies the master's ADD, UPDATE and DELETE requests and periodically re-checks its
checksums. Two small utilities encode integers little-endian and generate file ids.

The project models these parts:

| Dafny module | file | source |
|---|---|---|
| `Dicts` | dicts.dfy | JavaScript objects used as dictionaries: `Object.keys` order, assignment, `delete`, `filter` |
| `Ordering` | ordering.dfy | `Array.prototype.sort`: the default string order (by code point), and a stable sort by a numeric key |
| `Records` | records.dfy | the node's file record and the ADD / UPDATE / DELETE requests |
| `Tools` | tools.dfy | `intToBuff` and `uuidGen` (utils/Tools.js) |
| `Memory` | memory.dfy | the node's index, class `MemoryHelper` (nodes/memory.js) |
| `NodeRegistry` | node_mesh.dfy | the registry, class `NodeMesh` (master/node_mesh.js) |
| `MeshBuild` | mesh_build.dfy | `rebuildMesh` as a function of the reported indexes |
| `Repair` | repair.dfy | the per-file decision of `validateCorrectness` and the three repair procedures |
| `ReplicationEngine` | file_mesh.dfy | class `FileMesh` (master/file_mesh.js) |
| `MasterCommands` | commands.dfy | `commandDel`, which needs both the registry and the file mesh |

Both `FileMesh` and `NodeMesh` are classes whose methods update their fields in place, and so is
`MemoryHelper`. Several inputs are parameters:
- the clock (`now`);
- the sockets that are still connected (`disconnected`);
- `Math.random`, `crc32` and base64;
- the answers nodes give to queries (`answers`) and the error each node passes back for a
  DELETE (`replies`).

The requests a repair or a command sends are returned as values. They are not delivered.

## Model

| member | source | states |
|---|---|---|
| Tools.IntToBuff | utils/Tools.js:2-12 | the bytes are the number's base-256 digits, least significant first: they decode back to the coerced number, and zero or NaN gives no bytes |
| Tools.LeRoundTrip | utils/Tools.js:6-9 | decoding the bytes the loop emits gives back the number |
| Tools.LeBytesShape | utils/Tools.js:6-9 | the encoding is empty exactly for zero and otherwise ends in a nonzero byte |
| Tools.LeDecodeEncode | utils/Tools.js:6-9 | every byte sequence without a trailing zero is the encoding of its value, so the encoding is one-to-one onto such sequences |
| Tools.ParseDecimalString | utils/Tools.js:3 | `parseInt` of a non-negative integer's decimal text gives back that integer |
| Tools.BeforeDot | utils/Tools.js:16 | `split('.')[0]` is the prefix before the first dot, and it contains no dot |
| Tools.SplitTime | utils/Tools.js:15-17 | the two clock parts concatenate to the integral part of the clock text, and the first part has at most 8 characters |
| Tools.UuidPartsInRange | utils/Tools.js:15-18 | each of the three parts is a non-negative number below 2^31, where `&` and `>>=` act as `% 256` and `/ 256` |
| Tools.ReplaceSpecials | utils/Tools.js:27 | the result has the same length, each `=`, `/` and `+` becomes `0`, every other character stays in place, so no `=`, `/` or `+` remains |
| Tools.ReplaceSpecialsIdempotent | utils/Tools.js:27 | replacing twice is the same as replacing once |
| Tools.UuidGen | utils/Tools.js:14-28 | the id is the base64 text of the random part, the two clock parts and the first random byte again, with the special characters replaced; it contains none of them |
| Tools.UuidStartsWithRandomPart | utils/Tools.js:18-21 | the buffer starts with the little-endian bytes of the rounded random number |
| Memory.PairsAt | nodes/memory.js:94 | the i-th part of the canonical string is the i-th key, a colon, and its value's rendering |
| Memory.CanonicalStringIgnoresOrder | nodes/memory.js:91-98 | two metas with the same key/value pairs get the same checksum input, whatever the order their keys were inserted |
| Memory.CanonicalStringEmpty | nodes/memory.js:91-98 | an empty meta renders as the empty string |
| Memory.MemoryHelper.GetFileCount | nodes/memory.js:82-85 | the count is the number of entries that are not tombstones, and never more than the number of entries |
| Memory.MemoryHelper.CheckPassOutcome | nodes/memory.js:101-127 | the self-check keeps ids in their order and drops exactly the unlocked tombstones deleted more than 48 hours ago; every unlocked survivor has both checksums recomputed, and locked entries are untouched |
| Memory.CheckedAll | nodes/memory.js:102-125 | after every id is visited, the index is what the loop invariant describes: survivors in key order, rechecked unless locked |
| Memory.CheckedKeyed | nodes/memory.js:102-125 | the self-check keeps every entry filed under its own id |
| Memory.MemoryHelper.HashCheckTask | nodes/memory.js:101-127 | the loop leaves the index `CheckPassOutcome` describes, leaves stored contents alone, and every unlocked entry ends with checksums that match its meta and its stored content |
| Memory.MemoryHelper.AddFile | nodes/memory.js:130-165 | a request without meta throws and changes nothing. Otherwise the content is stored and the entry is (re)written unlocked, with status the request's or "live", both dates now, and consistent checksums; a new id goes last |
| Memory.MemoryHelper.UpdateFile | nodes/memory.js:168-215 | a request without meta, or for an unknown id, throws and changes nothing. Otherwise only truthy fields are taken, meta is always replaced, `dateUpdated` falls back to now, content is dropped on a move to "deleted" and replaced when given, the checksums become consistent and the key order is kept |
| Memory.MemoryHelper.DeleteFile | nodes/memory.js:218-254 | an unknown id throws and changes nothing. A forced delete removes the entry; otherwise the entry becomes an unlocked tombstone with the request's version, `meta.deleted`, and a deletion date of now. The stored content goes in both cases |
| Memory.MemoryHelper.GetFile | nodes/memory.js:257-282 | an unknown id gives the "doesn't exist" error. Otherwise the view copies every field except `locked`, with the stored content exactly when asked for |
| NodeRegistry.AfterSweep | master/node_mesh.js:81-101 | a sweep keeps every registered node in its place and removes none |
| NodeRegistry.SweepEffect | master/node_mesh.js:84-97 | a node ends alive exactly when it was alive and neither timed out nor lost its socket; a node that dies gets `lastDead = now`; dead nodes and all other fields stay as they were |
| NodeRegistry.SweepTwice | master/node_mesh.js:81-101 | a second sweep at the same time declares nobody dead and changes nothing |
| NodeRegistry.NodeMesh.CheckAlive | master/node_mesh.js:81-101 | the registry becomes the sweep's result, and the ids returned are exactly the nodes that died, in registration order |
| NodeRegistry.Pinged | master/node_mesh.js:21-60 | after a heartbeat the node is alive, with `lastPing = now` and the reported file count |
| NodeRegistry.NodeMesh.NodePing | master/node_mesh.js:21-60 | a new node is registered last, alive and healthy, with both start times now. A node coming back from the dead is marked unhealthy with a new `lastStart`. A live node keeps its health and start times. Every node ends alive with the new ping time and file count |
| NodeRegistry.NodeMesh.GetNodes | master/node_mesh.js:62-79 | one line per registered node, in registration order, copying its fields |
| NodeRegistry.LeastLoadedChoice | master/node_mesh.js:109-115 | the chosen nodes are distinct, eligible and registered, as many as there are up to n, and none carries more files than an eligible node left out |
| NodeRegistry.AddPayload | master/node_mesh.js:119-126 | ADD carries the id, version 1, the content and the meta `{name, size}` |
| NodeRegistry.Fanout | master/node_mesh.js:115-131 | one request per target, in order |
| NodeRegistry.NodeMesh.CommandAdd | master/node_mesh.js:104-136 | the registry is swept; the id is the given uuid unless it is missing or empty; ADD goes to the (at most three) least loaded live nodes |
| NodeRegistry.AddPlacement | master/node_mesh.js:104-136 | a new file goes to distinct live nodes, three unless fewer are live, never to a node the same sweep declared dead, and to no node with more files than a live node passed over |
| MeshBuild.BuildMeshShape | master/file_mesh.js:61-76 | the mesh lists a file exactly when some reported index holds it. Its holders are the reporting nodes in `nodesData` order, with the records they reported; its meta comes from the first of them; it starts unlocked |
| MeshBuild.BuildMeshRecords | master/file_mesh.js:63-74 | a node's record is in a file's entry exactly when its index reports the file, and it is that record |
| ReplicationEngine.FileMesh.RebuildMesh | master/file_mesh.js:61-76 | the nested loops produce the mesh `BuildMesh` defines from the reported indexes |
| ReplicationEngine.FileMesh.PushNodeData | master/file_mesh.js:19-22 | the node's index is replaced (a new node goes last) and the mesh is rebuilt from all indexes |
| ReplicationEngine.ClearedDeadEffect | master/file_mesh.js:47-52 | a dead node's index becomes empty; every other node keeps its index or stays absent |
| ReplicationEngine.NoDeadHolders | master/file_mesh.js:43-58 | once the dead nodes' indexes are cleared, the rebuilt mesh names no dead node as a holder |
| ReplicationEngine.FileMesh.RequestMeta | master/file_mesh.js:43-58 | the registry is swept; every dead node's index is cleared and the mesh rebuilt (left alone when no node is dead); the nodes queried are exactly the live ones, in registration order |
| ReplicationEngine.FileListSpec | master/file_mesh.js:78-96 | the list holds one listing per listed file, in mesh order, made of its id, holders, `meta.name` and first replica |
| ReplicationEngine.ListedExactly | master/file_mesh.js:81-85 | a file is listed exactly when its first replica is live and has no deletion date, and each file at most once |
| ReplicationEngine.FileMesh.GetFileList | master/file_mesh.js:78-96 | the loop returns the list `FileListSpec` characterises |
| Repair.FirstMismatchSpec | master/file_mesh.js:99-115 | no problem is reported exactly when every replica agrees with the first. Otherwise the report is how the first disagreeing replica differs (version before meta checksum before content checksum), and all earlier replicas agree |
| Repair.MetadataMatchProblem | master/file_mesh.js:99-115 | the loop returns the mismatch `FirstMismatchSpec` characterises |
| Repair.OldestStart | master/file_mesh.js:128-129 | the oldest start is one of the holders' start times and no later than any of them |
| Repair.OldestStartAge | master/file_mesh.js:128-135 | the oldest start is recent exactly when every holder's start is |
| Repair.DecideCases | master/file_mesh.js:125-172 | a locked file is skipped. An unlocked file with no holder is skipped. One with fewer than three holders that all (re)started less than 15 s ago waits. More than three are thinned, fewer than three are topped up, and three are repaired exactly when some replica disagrees with the first. Each case holds exactly under its condition |
| Repair.AllAgree | master/file_mesh.js:99-115 | comparing with the first replica finds nothing exactly when all replicas agree with it |
| Repair.AddTargetChoice | master/file_mesh.js:220-229 | a new replica goes to a live node that does not hold the file and carries no more files than any other such node; there is none exactly when every live node holds it |
| Repair.AddProcedure | master/file_mesh.js:205-246 | without an answer from the first holder nothing is sent. Without a spare node, the procedure refuses. Otherwise it sends ADD with the fetched replica to the chosen node |
| Repair.DelTargetChoice | master/file_mesh.js:248-270 | the forced DELETE goes to a holder whose file count no other holder exceeds |
| Repair.VersionOrderEnds | master/file_mesh.js:282-288 | in the corrected version order the first holder has the newest version and the last holder the oldest |
| Repair.MostFrequent | master/file_mesh.js:295-300 | the value chosen occurs among the checksums, and no other checksum occurs more often |
| Repair.Crcs | master/file_mesh.js:292 | one checksum per holder, in holder order |
| Repair.MajorityPlan | master/file_mesh.js:292-307 | the sorted checksums' ends differ exactly when the holders disagree. Then the correct holder is the first that carries a most frequent checksum, and the bad one is the first that carries another |
| Repair.MajorityChoiceOf | master/file_mesh.js:298-305 | the first holder with a most frequent checksum and the first without it form a majority repair |
| Repair.MajorityCounts | master/file_mesh.js:292-300 | a checksum most frequent among the sorted checksums is most frequent among the holders |
| Repair.SortedCrcs | master/file_mesh.js:292-294 | sorting keeps every checksum as often as it occurs, and the ends are equal exactly when all holders carry the first holder's checksum |
| Repair.SameVersions | master/file_mesh.js:282-288 | when the newest and oldest versions are equal, all versions are, and the stable sort leaves the holders in their order |
| Repair.FixTargets | master/file_mesh.js:272-333 | with the version comparator corrected to newest first (see Findings): nothing is chosen exactly when all replicas agree. A version disagreement is settled newest replica over oldest. Otherwise all versions are equal, a meta checksum disagreement is settled by majority, and a content checksum disagreement (with all metas equal) is settled by majority too |
| Repair.UpdatePayload | master/file_mesh.js:348-360 | UPDATE carries the fetched id, version and meta. Status, date added, date updated and date deleted are carried with their fetched values when truthy and sent as null otherwise. The content is carried unless only the meta was wrong |
| Repair.FixDispatch | master/file_mesh.js:330-368 | no problem means nothing is sent; a missing answer from the correct holder refuses; otherwise UPDATE goes to the bad holder |
| Repair.FixingProcedureFix | master/file_mesh.js:272-368 | with the version comparator corrected to newest first (see Findings), the outcome is that of a plan meeting the corrected choice: nothing is sent exactly when all replicas agree; a failed fetch from the correct holder refuses; otherwise UPDATE goes to the plan's bad holder with the correct holder's fetched record, and omits the content exactly when all versions agree and some meta checksum differs |
| Repair.VersionComparatorKeepsOrder | master/file_mesh.js:282 | with positive versions the comparator as written returns a positive value for every adjacent pair, so the sort keeps the holders in key order |
| Repair.VersionPlanAsWritten | master/file_mesh.js:282-288 | as written and with positive versions, a version repair happens exactly when the first and last holders' versions differ, and then takes the first holder as correct and the last as bad |
| Repair.StaleReplicaPreferred | master/file_mesh.js:282-288 | holders at versions 1, 2, 2: as written, the version-1 replica is taken as correct and a version-2 replica is overwritten |
| Repair.StaleExampleCorrected | master/file_mesh.js:282-288 | on the same holders the corrected order takes a version-2 replica as correct and the version-1 replica as bad |
| Repair.VersionMismatchMissed | master/file_mesh.js:282-288 | holders at versions 1, 2, 1: `metadataMatchProblem` reports a version mismatch, yet as written no version repair is chosen |
| Repair.MissedExampleCorrected | master/file_mesh.js:282-288 | on the same holders every plan meeting the corrected choice is a version repair taking the version-2 holder as correct |
| ReplicationEngine.PartialLock | master/file_mesh.js:125-171 | the pass changes only lock flags: same files in the same order, every other field kept, the mesh stays well formed |
| ReplicationEngine.FixRepair | master/file_mesh.js:162-171 | three disagreeing replicas are repaired with what `fixingProcedureFix` (with the corrected comparator) sends: the dispatch of a plan meeting the corrected choice, UPDATE of the bad holder with the correct holder's record or a refusal when the fetch fails |
| ReplicationEngine.ValidationLocks | master/file_mesh.js:121-172 | each file is repaired at most once and only if it was unlocked; after the pass a file is unlocked exactly when it was repaired |
| ReplicationEngine.FileMesh.VisitFile | master/file_mesh.js:122-172 | a file gets a repair exactly when the decision calls for one, and the request is the chosen procedure's (for a checksum or version mismatch, the UPDATE of the bad holder with the correct holder's record, under the corrected comparator); the file ends unlocked exactly when it was repaired; nothing else changes |
| ReplicationEngine.FileMesh.ValidationPass | master/file_mesh.js:118-173 | the repairs are one per file needing one, in mesh order, each the chosen procedure's request (mismatches repaired by the plan of the corrected comparator, as in VisitFile); the mesh ends with exactly the repaired files unlocked |
| ReplicationEngine.FileMesh.ValidateCorrectness | master/file_mesh.js:118-180 | the pass's repairs; if there were any, the metadata refresh follows (sweep, dead indexes cleared, live nodes queried), and otherwise nothing else happens |
| MasterCommands.DelVersion | master/node_mesh.js:150-164 | the tombstone version exists exactly when the first holder has a version, and is then that version plus 100 |
| MasterCommands.DelPayload | master/node_mesh.js:160-163 | DELETE carries the file id and the tombstone version, and is never forced |
| MasterCommands.FirstFailure | master/node_mesh.js:158-172 | `Promise.all` succeeds exactly when every target answered without an error; otherwise it rejects with the failure of some target: its error, or "Timeout" when it did not answer |
| MasterCommands.DelTargetsExactly | master/node_mesh.js:147-159 | the delete reaches exactly the file's holders that are alive after the sweep, each once, and none the sweep declared dead |
| MasterCommands.CommandDel | master/node_mesh.js:139-177 | the registry is swept. An unknown file throws the TypeError and sends nothing. Otherwise one tombstone goes to each live holder in mesh order, the call succeeds exactly when all of them answer without an error, and the lock is released only then; a failure rejects with the error of a failing holder, or "Timeout" for one that did not answer |

## Left out

- Sockets, RPC callbacks, timeouts and `Promise.all` are out of scope. A request's outcome is a
  parameter (`answers`, `replies`). The concurrency of `await` is not modelled either. Other work
  can interleave with a pending repair, and after a rebuild a pending repair writes its lock to
  an entry that is no longer in the mesh. The model runs each operation to completion.
- A FileQuery that gets no reply would leave the source waiting, because it has no timeout at
  master/file_mesh.js:182-203. The model treats it as a refusal (`FetchFailed`).
- `crc32`, base64 encoding and decoding, `Date.now` and `Math.random` are parameters.
- Logging, `saveMemory` and `loadMemory`, `getFileMeta`, `requestMetaNode`'s JSON parsing and the
  `data` field a ping stores are not modelled.
- `Object.keys` order: the model keeps insertion order. JavaScript lists integer-like keys
  first, in numeric order; file and node ids are not assumed to look like integers.
- Memory.MemoryHelper.AddFile: treats the storage write as total. In the source
  (nodes/memory.js:137-147) the entry is first written locked, "pending" and without checksums,
  then `storage.addFile` decodes the content with `atob`, which throws on text that is not
  base64. The error is rethrown, and the entry stays locked and "pending": `hashCheckTask`
  skips it and `getFileCount` still counts it. The model always ends with the entry unlocked
  and its checksums computed.
- Memory.MemoryHelper.UpdateFile and Memory.MemoryHelper.DeleteFile: likewise treat the
  storage write and removal as total. An I/O failure in the source rethrows and leaves the
  entry locked.
- Tools.ParseInt: reads only leading decimal digits. JavaScript's `parseInt` also accepts
  leading whitespace, a sign and a `0x` prefix. Its only caller, the id generator, passes digit
  strings.
- Ordering.LexLeq: compares strings by code point. The default `sort()` compares UTF-16 code
  units, and the two orders differ only for characters outside the Basic Multilingual Plane.
- Meta values are modelled as strings. The source stores `meta.deleted` as the boolean `true`
  and passes `size` through as the client sent it. The checksum text `k:v` renders both the
  same, so the checksums are unaffected.
- Repair.OldestStart: compares start times as numbers. The source sorts them with the default
  string `sort()`, which differs only when the times have different numbers of digits.
- Repair.MostFrequent: it promises a most frequent checksum, not which one among equally
  frequent ones. Which one the source picks depends on key order and on a stable sort, and that
  tie-break is not stated.
- Repair.VersionComparatorKeepsOrder: covers positive versions only. With a zero or missing
  version the as-written comparator's result depends on the engine's sort algorithm.
- Tools.IntToBuff: requires a number in 0 .. 2^31-1. For a negative number the source's loop
  never terminates (`>>=` keeps the sign), and above that range `&` and `>>=` work on the
  32-bit wrapped value. The id generator only feeds it values inside the range.
- A NaN version is modelled as a missing one (`None`). `100 + undefined` in `commandDel`
  becomes `null` once serialised.
- MasterCommands.DelVersion: does not tell a `null` version from a missing one. Both are
  `None`, and the tombstone version is then `None`. In the source `100 + null` is 100, so a
  first holder whose version is `null` (a NaN tombstone version after serialisation) gives a
  tombstone at version 100.
- MasterCommands.CommandDel: when several DELETEs fail, the source rejects with whichever
  failure comes first in time. The model passes on the failure of the first failing target in
  holder order, and its contract promises only that the message is one of the failures.
- ReplicationEngine.FileMesh.VisitFile: repairs a version mismatch with the corrected,
  newest-first comparator (`Repair.FixTargets`), not the comparator as written at
  master/file_mesh.js:282 (see Findings), and so do `Repair.FixingProcedureFix`,
  `ReplicationEngine.FixRepair` and `ReplicationEngine.FileMesh.ValidationPass`.
- Repair.VersionPlanAsWritten: covers positive versions only, like
  `Repair.VersionComparatorKeepsOrder`. With a zero or missing version the order the
  as-written comparator produces depends on the engine's sort algorithm.
- The `!nodeAliveTimes.length` check in `validateCorrectness` (master/file_mesh.js:131) never
  fires on a well-formed mesh, where every entry has a holder. `Decide` still has the case
  (`Unheld`), but the pass does not reach it.
- `commandDel`'s busy-wait for the lock (master/node_mesh.js:143-144) is not modelled. The lock
  cannot change while the synchronous loop spins, so the wait ends with the lock as it was, and
  the delete proceeds either way.
- `commandDel` is a `NodeMesh` method in the source. The model makes it a function of both the
  registry and the file mesh, in its own module, so the two classes' modules do not import
  each other.
- Three behaviours of the source worth noting:
  - `commandDel` releases the lock only after every DELETE is acknowledged;
  - `rebuildMesh` takes a file's meta from the first node listed;
  - a file skipped while warming up, or found in order, stays locked until the next rebuild.

## Findings

| source | as written | input that shows it | evidently intended | confidence | as-written member | corrected member |
|---|---|---|---|---|---|---|
| master/file_mesh.js:282 | the comparator parses as `vb \|\| (0 - va) \|\| 0`, which is positive for any positive versions, so the holders stay in key order and the first holder is taken as correct and the last as bad | holders a, b, c at versions 1, 2, 2: replica a (version 1) is copied over c (version 2); at versions 1, 2, 1 a version mismatch is reported but no version repair is chosen | sort by version, newest first, and repair the oldest replica from the newest | not executed; medium | Repair.StaleReplicaPreferred | Repair.FixTargets |
