/** Values shared by the analyzer's components: lock identities, lock kinds,
    lock-order edges and the events of a trace. */
module Locks {

  /** A lock: an address together with the generation that tells apart the
      objects that lived at that address one after the other. */
  datatype LockId = LockId(addr: int, gen: int)

  datatype LockKind = Mutex | RwlockRd | RwlockWr | Spin

  /** A backtrace, as program counters; symbol names are filled in later. */
  type Bt = seq<int>

  datatype EdgeKey = EdgeKey(frm: LockId, to: LockId)

  datatype EdgeInfo = EdgeInfo(tid: int, fromKind: LockKind, toKind: LockKind, btFrom: Bt, btTo: Bt)

  /** The lock-order edges with what is recorded for each. */
  type Edges = map<EdgeKey, EdgeInfo>

  datatype Option<+T> = None | Some(value: T)

  /** The sequence has no repeated element. */
  ghost predicate Distinct<T>(s: seq<T>) {
    forall i, j | 0 <= i < j < |s| :: s[i] != s[j]
  }
}
