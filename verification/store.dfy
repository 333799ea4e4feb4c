/** The document store, seen only through the batches committed to it. */
module Store {
  import opened Values

  /** A document reference: the `serial`-th id generated by
      `collection.document()` (opaque and fresh), or an explicit id. */
  datatype DocRef = AutoId(serial: nat) | Named(id: string)

  /** `batch.set(ref, data, merge=...)`. */
  datatype WriteOp = Set(doc: DocRef, data: map<string, Value>, merge: bool)

  /** The operations of one `batch.commit()`. */
  type Batch = seq<WriteOp>

  /** All operations of a log of commits, in commit order. */
  function Flatten<T>(batches: seq<seq<T>>): (all: seq<T>)
    ensures |batches| == 1 ==> all == batches[0]
  {
    if |batches| == 0 then [] else batches[0] + Flatten(batches[1..])
  }
}
