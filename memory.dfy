/**
 * A storage node's file index (`memory.files`): one record per file id, kept in the
 * order the ids were first added, next to the stored file contents.
 */
module Memory {
  import opened Dicts
  import opened Ordering
  import opened Records

  /** Deleted entries older than this many milliseconds are dropped by the self-check. */
  const DeletionTimeout: int := 48 * 60 * 60 * 1000

  /** `${obj[k]}`: the value's rendering, `undefined` for a key the object lacks. */
  function Rendered(vals: map<string, string>, k: string): string {
    if k in vals then vals[k] else "undefined"
  }

  /** `k:v` for each key of `keys`, with the value `vals` holds for it. */
  function Pairs(keys: seq<string>, vals: map<string, string>): (r: seq<string>)
    ensures |r| == |keys|
  {
    if keys == [] then [] else [keys[0] + ":" + Rendered(vals, keys[0])] + Pairs(keys[1..], vals)
  }

  /** The `i`-th part renders the `i`-th key with its value. */
  lemma {:induction false} PairsAt(keys: seq<string>, vals: map<string, string>, i: int)
    requires 0 <= i < |keys|
    ensures Pairs(keys, vals)[i] == keys[i] + ":" + Rendered(vals, keys[i])
  {
    if i > 0 {
      PairsAt(keys[1..], vals, i - 1);
    }
  }

  /** The string `objectCRC` hashes: the keys in default sort order, rendered `k:v`, joined by `/`. */
  function CanonicalString(meta: Dict<string>): string {
    Join(Pairs(SortStrings(meta.keys), meta.vals), "/")
  }

  /** The canonical string depends on the key/value pairs only, not on the order the keys were inserted. */
  lemma CanonicalStringIgnoresOrder(m1: Dict<string>, m2: Dict<string>)
    requires m1.Valid() && m2.Valid() && m1.vals == m2.vals
    ensures CanonicalString(m1) == CanonicalString(m2)
  {
    DistinctSameElements(m1.keys, m2.keys);
    SortStringsSorted(m1.keys);
    SortStringsSorted(m2.keys);
    SortedStringsUnique(SortStrings(m1.keys), SortStrings(m2.keys));
  }

  /** The empty object renders as the empty string. */
  lemma CanonicalStringEmpty(m: Dict<string>)
    requires m.Valid() && m.keys == []
    ensures CanonicalString(m) == ""
  {
  }

  /** Self-check: a deleted entry whose deletion date (`null` counting as 0) lies over 48 hours back. */
  predicate Expired(r: FileRecord, now: int) {
    r.status == "deleted" && now - OrZero(r.dateDeleted) > DeletionTimeout
  }

  /** Whether the self-check keeps the entry under `id`: only unlocked expired entries go. */
  function Survives(fs: Dict<FileRecord>, now: int): string -> bool {
    id => !(id in fs.vals && !fs.vals[id].locked && Expired(fs.vals[id], now))
  }

  /** The id's status in the status line `getFileCount` filters on. */
  function IsLive(fs: Dict<FileRecord>): string -> bool {
    id => id in fs.vals && fs.vals[id].status != "deleted"
  }

  /**
   * The self-check has visited the ids `ks[..i]` of the index `fs0` (whose keys are `ks`), and `fs`
   * is the index at that point: visited expired entries are gone, visited unlocked entries were
   * passed through `recheck`, and everything not yet visited is as it was.
   */
  ghost predicate CheckedUpTo(
    fs0: Dict<FileRecord>, i: int, now: int, recheck: (FileId, FileRecord) -> FileRecord, fs: Dict<FileRecord>)
  {
    var ks := fs0.keys;
    && fs0.Valid() && fs.Valid() && 0 <= i <= |ks|
    && fs.keys == Filter(ks[..i], Survives(fs0, now)) + ks[i..]
    && (forall id | id in fs.vals :: id in fs0.vals)
    && EntriesChecked(fs0, ks[i..], recheck, fs)
  }

  /** Each entry of `fs` is its original in `fs0` when still `pending` or locked, and rechecked otherwise. */
  ghost predicate EntriesChecked(
    fs0: Dict<FileRecord>, pending: seq<FileId>, recheck: (FileId, FileRecord) -> FileRecord, fs: Dict<FileRecord>)
  {
    forall id | id in fs.vals ::
      id in fs0.vals &&
      fs.vals[id] == if id in pending || fs0.vals[id].locked then fs0.vals[id] else recheck(id, fs0.vals[id])
  }

  /** What visiting `id` does to the index `fs`. */
  function CheckStep(fs: Dict<FileRecord>, id: FileId, now: int, recheck: (FileId, FileRecord) -> FileRecord): Dict<FileRecord> {
    if id !in fs.vals then fs
    else
    var file := fs.vals[id];
    if file.locked then fs
    else if Expired(file, now) then fs.Remove(id)
    else fs.Put(id, recheck(id, file))
  }

  /** The index after the self-check has visited the ids `done`, in order. */
  function CheckPass(fs: Dict<FileRecord>, done: seq<FileId>, now: int, recheck: (FileId, FileRecord) -> FileRecord): Dict<FileRecord>
  {
    if done == [] then fs
    else CheckStep(CheckPass(fs, done[..|done| - 1], now, recheck), done[|done| - 1], now, recheck)
  }

  /** Visiting the first `i` keys leaves the index in the state `CheckedUpTo` describes. */
  lemma {:induction false} CheckPassChecked(
    fs0: Dict<FileRecord>, i: int, now: int, recheck: (FileId, FileRecord) -> FileRecord)
    requires fs0.Valid() && 0 <= i <= |fs0.keys|
    ensures CheckedUpTo(fs0, i, now, recheck, CheckPass(fs0, fs0.keys[..i], now, recheck))
  {
    if i == 0 {
      CheckedNone(fs0, now, recheck);
    } else {
      CheckPassChecked(fs0, i - 1, now, recheck);
      assert fs0.keys[..i][..i - 1] == fs0.keys[..i - 1];
      CheckedNext(fs0, i - 1, now, recheck, CheckPass(fs0, fs0.keys[..i - 1], now, recheck));
    }
  }

  /** A key not visited yet is still present, with its entry untouched. */
  lemma CheckPassUnvisited(fs0: Dict<FileRecord>, i: int, now: int, recheck: (FileId, FileRecord) -> FileRecord)
    requires fs0.Valid() && 0 <= i < |fs0.keys|
    ensures var fs := CheckPass(fs0, fs0.keys[..i], now, recheck);
      fs0.keys[i] in fs.vals && fs.vals[fs0.keys[i]] == fs0.vals[fs0.keys[i]]
  {
    CheckPassChecked(fs0, i, now, recheck);
    var fs, ks := CheckPass(fs0, fs0.keys[..i], now, recheck), fs0.keys;
    assert ks[i] in ks[i..];
    assert ks[i] in fs.keys by {
      assert fs.keys == Filter(ks[..i], Survives(fs0, now)) + ks[i..];
    }
    assert EntriesChecked(fs0, ks[i..], recheck, fs);
  }

  lemma CheckedNone(fs0: Dict<FileRecord>, now: int, recheck: (FileId, FileRecord) -> FileRecord)
    requires fs0.Valid()
    ensures CheckedUpTo(fs0, 0, now, recheck, fs0)
  {
    assert fs0.keys[..0] == [] && fs0.keys[0..] == fs0.keys;
    forall id | id in fs0.vals ensures id in fs0.keys[0..] {
    }
  }

  lemma CheckedNext(
    fs0: Dict<FileRecord>, i: int, now: int, recheck: (FileId, FileRecord) -> FileRecord, fs: Dict<FileRecord>)
    requires CheckedUpTo(fs0, i, now, recheck, fs) && i < |fs0.keys|
    ensures fs0.keys[i] in fs.vals
    ensures CheckedUpTo(fs0, i + 1, now, recheck, CheckStep(fs, fs0.keys[i], now, recheck))
  {
    var id := fs0.keys[i];
    CheckedAt(fs0, i, now, recheck, fs);
    CheckedNextKeys(fs0, i, now, recheck, fs);
    CheckedNextVals(fs0, i, now, recheck, fs);
    CheckedIntro(fs0, i + 1, now, recheck, CheckStep(fs, id, now, recheck));
  }

  /** The next id to visit is still present with its original entry. */
  lemma CheckedAt(
    fs0: Dict<FileRecord>, i: int, now: int, recheck: (FileId, FileRecord) -> FileRecord, fs: Dict<FileRecord>)
    requires CheckedUpTo(fs0, i, now, recheck, fs) && i < |fs0.keys|
    ensures fs0.keys[i] in fs.vals && fs.vals[fs0.keys[i]] == fs0.vals[fs0.keys[i]]
  {
    var id := fs0.keys[i];
    assert id in fs0.keys[i..];
    assert id in fs.keys;
  }

  lemma CheckedIntro(
    fs0: Dict<FileRecord>, i: int, now: int, recheck: (FileId, FileRecord) -> FileRecord, fs: Dict<FileRecord>)
    requires fs0.Valid() && fs.Valid() && 0 <= i <= |fs0.keys|
    requires fs.keys == Filter(fs0.keys[..i], Survives(fs0, now)) + fs0.keys[i..]
    requires forall id | id in fs.vals :: id in fs0.vals
    requires EntriesChecked(fs0, fs0.keys[i..], recheck, fs)
    ensures CheckedUpTo(fs0, i, now, recheck, fs)
  {
  }

  lemma CheckedNextKeys(
    fs0: Dict<FileRecord>, i: int, now: int, recheck: (FileId, FileRecord) -> FileRecord, fs: Dict<FileRecord>)
    requires fs0.Valid() && fs.Valid() && 0 <= i < |fs0.keys|
    requires fs.keys == Filter(fs0.keys[..i], Survives(fs0, now)) + fs0.keys[i..]
    requires fs0.keys[i] in fs.vals && fs.vals[fs0.keys[i]] == fs0.vals[fs0.keys[i]]
    requires forall x | x in fs.vals :: x in fs0.vals
    ensures fs0.keys[i] !in fs0.keys[i + 1..]
    ensures var next := CheckStep(fs, fs0.keys[i], now, recheck);
      && next.Valid()
      && next.keys == Filter(fs0.keys[..i + 1], Survives(fs0, now)) + fs0.keys[i + 1..]
      && (forall x | x in next.vals :: x in fs0.vals)
  {
    var ks, keep := fs0.keys, Survives(fs0, now);
    var id := ks[i];
    DistinctAt(ks, i);
    FilterPassStep(ks, i, keep);
    StepKeys(fs, id, now, recheck, keep(id), Filter(ks[..i + 1], keep) + ks[i + 1..]);
  }

  /** Visiting a present id keeps the keys when the entry stays, and drops just that id when it goes. */
  lemma StepKeys(fs: Dict<FileRecord>, id: FileId, now: int, recheck: (FileId, FileRecord) -> FileRecord,
                 stays: bool, after: seq<FileId>)
    requires fs.Valid() && id in fs.vals
    requires stays <==> !(!fs.vals[id].locked && Expired(fs.vals[id], now))
    requires stays ==> after == fs.keys
    requires !stays ==> after == Without(fs.keys, id)
    ensures CheckStep(fs, id, now, recheck).Valid() && CheckStep(fs, id, now, recheck).keys == after
    ensures forall x | x in CheckStep(fs, id, now, recheck).vals :: x in fs.vals
  {
  }

  lemma CheckedNextVals(
    fs0: Dict<FileRecord>, i: int, now: int, recheck: (FileId, FileRecord) -> FileRecord, fs: Dict<FileRecord>)
    requires 0 <= i < |fs0.keys| && EntriesChecked(fs0, fs0.keys[i..], recheck, fs)
    requires fs0.keys[i] in fs.vals && fs0.keys[i] !in fs0.keys[i + 1..]
    ensures EntriesChecked(fs0, fs0.keys[i + 1..], recheck, CheckStep(fs, fs0.keys[i], now, recheck))
  {
    var id, rest := fs0.keys[i], fs0.keys[i + 1..];
    assert fs0.keys[i..] == [id] + rest;
    var next := CheckStep(fs, id, now, recheck);
    var file := fs.vals[id];
    assert file == fs0.vals[id];
    assert next.vals == if file.locked then fs.vals
                        else if Expired(file, now) then fs.vals - {id}
                        else fs.vals[id := recheck(id, file)];
    forall x | x in next.vals
      ensures x in fs0.vals
      ensures next.vals[x] == if x in rest || fs0.vals[x].locked then fs0.vals[x] else recheck(x, fs0.vals[x])
    {
      if x != id {
        assert next.vals[x] == fs.vals[x];
        assert x in [id] + rest <==> x in rest;
      }
    }
  }

  /** After visiting every id: exactly the expired unlocked entries are gone, in key order, and the rest are rechecked. */
  lemma CheckedAll(fs0: Dict<FileRecord>, now: int, recheck: (FileId, FileRecord) -> FileRecord, fs: Dict<FileRecord>)
    requires CheckedUpTo(fs0, |fs0.keys|, now, recheck, fs)
    ensures fs.keys == Filter(fs0.keys, Survives(fs0, now))
    ensures forall id :: id in fs.vals <==> id in fs0.vals && Survives(fs0, now)(id)
    ensures forall id | id in fs.vals ::
      fs.vals[id] == if fs0.vals[id].locked then fs0.vals[id] else recheck(id, fs0.vals[id])
  {
    var ks := fs0.keys;
    assert ks[..|ks|] == ks && ks[|ks|..] == [];
    FilterMembers(ks, Survives(fs0, now));
  }

  /** A recheck that keeps ids keeps every entry filed under its own id. */
  lemma CheckedKeyed(fs0: Dict<FileRecord>, now: int, recheck: (FileId, FileRecord) -> FileRecord, fs: Dict<FileRecord>)
    requires CheckedUpTo(fs0, |fs0.keys|, now, recheck, fs) && Keyed(fs0)
    requires forall id, r :: recheck(id, r).id == r.id
    ensures Keyed(fs)
  {
    assert fs0.keys[|fs0.keys|..] == [];
  }

  /**
   * The entry after `updateFile(req)` at time `now`, before its checksums are recomputed:
   * fields the request supplies with a truthy value replace the old ones, `meta` is always
   * replaced, `dateUpdated` falls back to `now`, and the entry ends unlocked.
   */
  function Revised(r: FileRecord, req: UpdateRequest, now: int): (u: FileRecord)
    requires req.meta.Some?
  {
    r.(version := if TruthyNumber(req.version) then req.version else r.version,
       meta := req.meta.value,
       status := if TruthyString(req.status) then req.status.value else r.status,
       dateUpdated := if TruthyNumber(req.dateUpdated) then req.dateUpdated.value else now,
       dateAdded := if TruthyNumber(req.dateAdded) then req.dateAdded.value else r.dateAdded,
       dateDeleted := if TruthyNumber(req.dateDeleted) then req.dateDeleted else r.dateDeleted,
       locked := false)
  }

  /** What `updateFile` leaves in storage: the new content when given, after dropping it on a move to "deleted". */
  function StoreAfterUpdate(stored: map<FileId, string>, r: FileRecord, req: UpdateRequest): (s: map<FileId, string>)
  {
    var dropped := if TruthyString(req.status) && req.status.value == "deleted" && r.status != "deleted"
                   then stored - {req.id} else stored;
    if TruthyString(req.data) then dropped[req.id := req.data.value] else dropped
  }

  /** Every entry of the index is filed under its own id. */
  ghost predicate Keyed(fs: Dict<FileRecord>) {
    forall id | id in fs.vals :: fs.vals[id].id == id
  }

  lemma KeyedPut(fs: Dict<FileRecord>, id: FileId, r: FileRecord)
    requires fs.Valid() && Keyed(fs) && r.id == id
    ensures fs.Put(id, r).Valid() && Keyed(fs.Put(id, r))
  {
  }

  lemma KeyedRemove(fs: Dict<FileRecord>, id: FileId)
    requires fs.Valid() && Keyed(fs)
    ensures fs.Remove(id).Valid() && Keyed(fs.Remove(id))
  {
  }

  class MemoryHelper {
    var files: Dict<FileRecord>
    /** The base64 content stored under each file id; a missing id reads as empty content. */
    var stored: map<FileId, string>
    /** crc32 of a string. */
    const crc32: string -> Crc
    /** crc32 of the bytes a base64 text decodes to. */
    const contentCrc: string -> Crc

    ghost predicate Valid()
      reads this
    {
      files.Valid() && Keyed(files)
    }

    constructor (crc32: string -> Crc, contentCrc: string -> Crc)
      ensures Valid() && files.keys == [] && stored == map[]
      ensures this.crc32 == crc32 && this.contentCrc == contentCrc
    {
      files := EmptyDict();
      stored := map[];
      this.crc32 := crc32;
      this.contentCrc := contentCrc;
    }

    /** `objectCRC(meta)`. */
    function ObjectCrc(meta: Dict<string>): Crc {
      crc32(CanonicalString(meta))
    }

    /** `storage.getCRC(id)`: the checksum of the stored content, or of empty content when none is stored. */
    function StoredCrc(id: FileId): Crc
      reads this`stored
    {
      contentCrc(if id in stored then stored[id] else "")
    }

    /** Both checksums of the entry agree with its meta and with the stored content. */
    ghost predicate Consistent(id: FileId)
      reads this
      requires Valid()
    {
      id in files.vals ==>
        files.vals[id].metaCRC == ObjectCrc(files.vals[id].meta) && files.vals[id].fileCRC == StoredCrc(id)
    }

    /** The ids whose entry is not a tombstone. */
    ghost function LiveIds(): set<FileId>
      reads this
    {
      set id | id in files.vals && files.vals[id].status != "deleted"
    }

    /** `getFileCount()`. */
    function GetFileCount(): (count: nat)
      reads this
      requires Valid()
      ensures count == |LiveIds()|
      ensures count <= |files.keys|
    {
      var fs := files;
      var live := Filter(fs.keys, IsLive(fs));
      FilterDistinct(fs.keys, IsLive(fs));
      FilterMembers(fs.keys, IsLive(fs));
      DistinctCardinality(live);
      assert (set x | x in live) == LiveIds();
      |live|
    }

    /** The entry with both checksums recomputed, as the self-check leaves it. */
    function Rechecked(id: FileId, r: FileRecord): (c: FileRecord)
      reads this`stored
    {
      r.(metaCRC := ObjectCrc(r.meta), fileCRC := StoredCrc(id))
    }

    /** `Rechecked` as a function value, over the storage as it is now. */
    function Recheck(): (f: (FileId, FileRecord) -> FileRecord)
      reads this`stored
      ensures forall id, r :: f(id, r) == Rechecked(id, r)
    {
      var st := stored;
      (id: FileId, r: FileRecord) => r.(metaCRC := ObjectCrc(r.meta), fileCRC := contentCrc(if id in st then st[id] else ""))
    }

    /** The index the whole pass leaves, entry by entry. */
    lemma CheckPassOutcome(fs0: Dict<FileRecord>, now: int, recheck: (FileId, FileRecord) -> FileRecord)
      requires fs0.Valid() && Keyed(fs0)
      requires forall id, r :: recheck(id, r) == Rechecked(id, r)
      ensures var fs := CheckPass(fs0, fs0.keys, now, recheck);
        && fs.Valid() && Keyed(fs)
        && fs.keys == Filter(fs0.keys, Survives(fs0, now))
        && (forall id :: id in fs.vals <==> id in fs0.vals && Survives(fs0, now)(id))
        && (forall id | id in fs.vals ::
              fs.vals[id] == if fs0.vals[id].locked then fs0.vals[id] else Rechecked(id, fs0.vals[id]))
    {
      var ks := fs0.keys;
      assert ks[..|ks|] == ks;
      var fs := CheckPass(fs0, ks, now, recheck);
      CheckPassChecked(fs0, |ks|, now, recheck);
      CheckedAll(fs0, now, recheck, fs);
      CheckedKeyed(fs0, now, recheck, fs);
    }

    /** `hashCheckTask(now)`. */
    method HashCheckTask(now: int)
      requires Valid()
      modifies this
      ensures Valid() && stored == old(stored)
      ensures files.keys == Filter(old(files.keys), Survives(old(files), now))
      ensures forall id :: id in files.vals <==> id in old(files.vals) && Survives(old(files), now)(id)
      ensures forall id | id in files.vals ::
        files.vals[id] == if old(files.vals[id]).locked then old(files.vals[id]) else Rechecked(id, old(files.vals[id]))
      ensures forall id | id in files.vals && !files.vals[id].locked :: Consistent(id)
    {
      ghost var fs0 := files;
      ghost var recheck := Recheck();
      var ks := files.keys;
      var i := 0;
      while i < |ks|
        invariant 0 <= i <= |ks|
        invariant stored == old(stored)
        invariant files == CheckPass(fs0, ks[..i], now, recheck)
      {
        var id := ks[i];
        CheckPassUnvisited(fs0, i, now, recheck);
        var file := files.vals[id];
        if !file.locked {
          if Expired(file, now) {
            files := files.Remove(id);
          } else {
            assert recheck(id, file) == Rechecked(id, file);
            files := files.Put(id, Rechecked(id, file));
          }
        }
        assert ks[..i + 1][..i] == ks[..i];
        i := i + 1;
      }
      assert ks[..i] == ks;
      CheckPassOutcome(fs0, now, recheck);
      forall id | id in files.vals && !files.vals[id].locked ensures Consistent(id) {
        assert files.vals[id] == Rechecked(id, fs0.vals[id]);
      }
    }

    /** `addFile(req)` at time `now`. */
    method AddFile(req: AddRequest, now: int) returns (ack: Ack)
      requires Valid()
      modifies this
      ensures Valid()
      ensures req.meta.None? ==> ack == Thrown(MetaMissing) && files == old(files) && stored == old(stored)
      ensures req.meta.Some? ==> ack == Done && stored == old(stored)[req.id := req.data]
      ensures req.meta.Some? ==>
        files.keys == (if req.id in old(files.vals) then old(files.keys) else old(files.keys) + [req.id])
      ensures req.meta.Some? ==>
        files.vals == old(files.vals)[req.id := FileRecord(
          req.id, req.version, req.meta.value, false,
          if TruthyString(req.status) then req.status.value else "live",
          now, now, None, contentCrc(req.data), ObjectCrc(req.meta.value))]
      ensures req.meta.Some? ==> Consistent(req.id)
    {
      if req.meta.None? {
        return Thrown(MetaMissing);
      }
      var meta := req.meta.value;
      var pending := FileRecord(req.id, req.version, meta, true, "pending", now, now, None, "", "");
      KeyedPut(files, req.id, pending);
      files := files.Put(req.id, pending);
      stored := stored[req.id := req.data];
      var record := pending.(fileCRC := StoredCrc(req.id), metaCRC := ObjectCrc(meta));
      record := record.(status := if TruthyString(req.status) then req.status.value else "live", locked := false);
      assert record.id == req.id && record.fileCRC == contentCrc(req.data);
      KeyedPut(files, req.id, record);
      old(files).PutPut(req.id, pending, record);
      files := files.Put(req.id, record);
      assert files.vals == old(files.vals)[req.id := record];
      ack := Done;
    }

    /** `updateFile(req)` at time `now`. */
    method UpdateFile(req: UpdateRequest, now: int) returns (ack: Ack)
      requires Valid()
      modifies this
      ensures Valid() && files.keys == old(files.keys)
      ensures req.meta.None? ==> ack == Thrown(MetaMissing) && files == old(files) && stored == old(stored)
      ensures req.meta.Some? && req.id !in old(files.vals) ==>
        ack == Thrown(NoSuchFile) && files == old(files) && stored == old(stored)
      ensures ack.Done? <==> req.meta.Some? && req.id in old(files.vals)
      ensures ack.Done? ==>
        && stored == StoreAfterUpdate(old(stored), old(files.vals[req.id]), req)
        && files.vals == old(files.vals)[req.id := Rechecked(req.id, Revised(old(files.vals[req.id]), req, now))]
        && Consistent(req.id)
    {
      if req.meta.None? {
        return Thrown(MetaMissing);
      }
      if req.id !in files.vals {
        return Thrown(NoSuchFile);
      }
      var id := req.id;
      var r0 := files.vals[id];
      files := files.Put(id, r0.(locked := true));
      if TruthyString(req.status) && req.status.value == "deleted" && r0.status != "deleted" {
        stored := stored - {id};
      }
      if TruthyString(req.data) {
        stored := stored[id := req.data.value];
      }
      assert stored == StoreAfterUpdate(old(stored), r0, req);
      var record := Rechecked(id, Revised(r0, req, now));
      assert record.id == id && record.metaCRC == ObjectCrc(record.meta) && record.fileCRC == StoredCrc(id);
      old(files).PutPut(id, r0.(locked := true), record);
      KeyedPut(old(files), id, record);
      files := files.Put(id, record);
      assert files.vals == old(files.vals)[id := record];
      ack := Done;
    }

    /** `deleteFile(req)` at time `now`. */
    method DeleteFile(req: DeleteRequest, now: int) returns (ack: Ack)
      requires Valid()
      modifies this
      ensures Valid()
      ensures req.id !in old(files.vals) ==> ack == Thrown(NoSuchFile) && files == old(files) && stored == old(stored)
      ensures req.id in old(files.vals) ==> ack == Done && stored == old(stored) - {req.id}
      ensures req.id in old(files.vals) && req.force ==> files == old(files).Remove(req.id)
      ensures req.id in old(files.vals) && !req.force ==>
        var r0 := old(files.vals[req.id]);
        && files.keys == old(files.keys)
        && files.vals == old(files.vals)[req.id := r0.(
             status := "deleted", meta := r0.meta.Put("deleted", "true"), dateDeleted := Some(now),
             version := req.version, locked := false)]
    {
      if req.id !in files.vals {
        return Thrown(NoSuchFile);
      }
      var id := req.id;
      if req.force {
        stored := stored - {id};
        KeyedRemove(files, id);
        files := files.Remove(id);
        return Done;
      }
      var record := files.vals[id].(locked := true);
      record := record.(status := "deleted", meta := record.meta.Put("deleted", "true"));
      record := record.(dateDeleted := Some(now), version := req.version);
      stored := stored - {id};
      record := record.(locked := false);
      KeyedPut(files, id, record);
      files := files.Put(id, record);
      ack := Done;
    }

    /** `getFile(id, getContent)`: a copy of the entry without `locked`, with the content when asked for. */
    function GetFile(id: FileId, getContent: bool): (res: Result<FileView>)
      reads this
      ensures res.Err? <==> id !in files.vals
      ensures res.Err? ==> res.message == NoSuchFile
      ensures res.Ok? ==> res.value.data.Some? == getContent
      ensures res.Ok? && getContent ==> res.value.data.value == (if id in stored then stored[id] else "")
      ensures res.Ok? ==>
        var r, v := files.vals[id], res.value;
        v.id == r.id && v.version == r.version && v.meta == r.meta && v.status == r.status &&
        v.dateAdded == r.dateAdded && v.dateUpdated == r.dateUpdated && v.dateDeleted == r.dateDeleted &&
        v.fileCRC == r.fileCRC && v.metaCRC == r.metaCRC
    {
      if id !in files.vals then Err(NoSuchFile)
      else
        var r := files.vals[id];
        var content := if getContent then Some(if id in stored then stored[id] else "") else None;
        Ok(FileView(r.id, r.version, r.meta, r.status, r.dateAdded, r.dateUpdated, r.dateDeleted,
                    r.fileCRC, r.metaCRC, content))
    }
  }
}
