/**
 * The records a storage node keeps for each file, and the requests the master sends it.
 * The same record shape travels to the master in answer to a metadata query.
 */
module Records {
  import opened Dicts

  type FileId = string
  type NodeId = string

  /** A crc32 checksum as `crc32` renders it: a string. */
  type Crc = string

  /** A node's entry for one file (one replica). Timestamps are milliseconds. */
  datatype FileRecord = FileRecord(
    id: FileId,
    version: Option<int>,
    meta: Dict<string>,     // meta values as their string renderings
    locked: bool,
    status: string,         // "pending", "live" or "deleted"
    dateAdded: int,
    dateUpdated: int,
    dateDeleted: Option<int>,
    fileCRC: Crc,
    metaCRC: Crc)

  /** A record as `getFile` hands it out: no `locked`, and the content when it was asked for. */
  datatype FileView = FileView(
    id: FileId,
    version: Option<int>,
    meta: Dict<string>,
    status: string,
    dateAdded: int,
    dateUpdated: int,
    dateDeleted: Option<int>,
    fileCRC: Crc,
    metaCRC: Crc,
    data: Option<string>)

  /** ADD: store a new replica. `meta` is `None` when the request carries none. */
  datatype AddRequest = AddRequest(
    id: FileId, version: Option<int>, data: string, meta: Option<Dict<string>>, status: Option<string>)

  /** UPDATE: overwrite fields of an existing replica; absent fields are `None`. */
  datatype UpdateRequest = UpdateRequest(
    id: FileId,
    version: Option<int>,
    meta: Option<Dict<string>>,
    status: Option<string>,
    dateAdded: Option<int>,
    dateUpdated: Option<int>,
    dateDeleted: Option<int>,
    data: Option<string>)

  /** DELETE: a tombstone (with the new version) or, with `force`, removal of the entry. */
  datatype DeleteRequest = DeleteRequest(id: FileId, version: Option<int>, force: bool)

  datatype Request = Add(add: AddRequest) | Update(update: UpdateRequest) | Delete(delete: DeleteRequest)

  /** How a request ends on the node: it returns, or it throws with a message. */
  datatype Ack = Done | Thrown(message: string)

  /** A value, or the message of the error thrown instead. */
  datatype Result<T> = Ok(value: T) | Err(message: string)

  /** What a node throws for a request about a file it has no entry for. */
  const NoSuchFile := "This file doesn't exist."

  /** The TypeError thrown by reading `meta.name` when a request carries no meta. */
  const MetaMissing := "Cannot read properties of undefined (reading 'name')"

  /** `v || 0` for a number that may be missing (`null` or `undefined`). */
  function OrZero(v: Option<int>): int {
    match v
    case None => 0
    case Some(x) => x
  }

  /** A number JavaScript treats as true in a condition: present and not zero. */
  predicate TruthyNumber(v: Option<int>) {
    v.Some? && v.value != 0
  }

  /** A string JavaScript treats as true in a condition: present and not empty. */
  predicate TruthyString(s: Option<string>) {
    s.Some? && s.value != ""
  }
}
