/** The batch size policy of the migration: operations are committed in
    batches of at most 499, one below the store's hard limit of 500. */
module Batching {
  import opened Store
  import opened Arithmetic

  /** A batch is committed as soon as it holds this many operations. */
  const BATCH_LIMIT: nat := 499

  /** Reference definition of the batches committed for `ops`: full batches of
      `BATCH_LIMIT` operations in input order, then the non-empty remainder. */
  function Chunk<T>(ops: seq<T>): (batches: seq<seq<T>>)
    decreases |ops|
  {
    if |ops| == 0 then []
    else if |ops| <= BATCH_LIMIT then [ops]
    else [ops[..BATCH_LIMIT]] + Chunk(ops[BATCH_LIMIT..])
  }

  /** The batches hold every operation once, in input order. */
  lemma {:induction false} ChunkFlatten<T>(ops: seq<T>)
    ensures Flatten(Chunk(ops)) == ops
    decreases |ops|
  {
    if |ops| > BATCH_LIMIT {
      var rest := Chunk(ops[BATCH_LIMIT..]);
      var batches := [ops[..BATCH_LIMIT]] + rest;
      assert batches[0] == ops[..BATCH_LIMIT] && batches[1..] == rest;
      ChunkFlatten(ops[BATCH_LIMIT..]);
      assert ops[..BATCH_LIMIT] + ops[BATCH_LIMIT..] == ops;
    } else if |ops| > 0 {
      assert Flatten([ops]) == ops;
    }
  }

  /** No batch is empty or over the limit, and only the last may be partial. */
  lemma {:induction false} ChunkSizes<T>(ops: seq<T>)
    ensures forall b :: b in Chunk(ops) ==> 1 <= |b| <= BATCH_LIMIT
    ensures forall i :: 0 <= i < |Chunk(ops)| - 1 ==> |Chunk(ops)[i]| == BATCH_LIMIT
    decreases |ops|
  {
    if |ops| > BATCH_LIMIT {
      ChunkSizes(ops[BATCH_LIMIT..]);
      var rest := Chunk(ops[BATCH_LIMIT..]);
      assert Chunk(ops) == [ops[..BATCH_LIMIT]] + rest;
      forall i | 1 <= i < |Chunk(ops)| - 1
        ensures |Chunk(ops)[i]| == BATCH_LIMIT
      {
        assert Chunk(ops)[i] == rest[i - 1];
      }
    }
  }

  /** There are `ceil(n / BATCH_LIMIT)` batches for `n` operations. */
  lemma {:induction false} ChunkCount<T>(ops: seq<T>)
    ensures |Chunk(ops)| == CeilDiv(|ops|, BATCH_LIMIT)
    decreases |ops|
  {
    if |ops| > BATCH_LIMIT {
      ChunkCount(ops[BATCH_LIMIT..]);
    }
  }

  /** No batch at all is committed for no operations; otherwise at least one. */
  lemma ChunkEmptyIffNoOps<T>(ops: seq<T>)
    ensures Chunk(ops) == [] <==> ops == []
  {
    ChunkCount(ops);
  }

  /** Everything the migration promises of its commits, for `Chunk(ops)`. */
  lemma ChunkShape<T>(ops: seq<T>)
    ensures Flatten(Chunk(ops)) == ops
    ensures forall b :: b in Chunk(ops) ==> 1 <= |b| <= BATCH_LIMIT
    ensures |Chunk(ops)| == CeilDiv(|ops|, BATCH_LIMIT)
    ensures Chunk(ops) == [] <==> ops == []
  {
    ChunkFlatten(ops);
    ChunkSizes(ops);
    ChunkCount(ops);
  }

  /** Batching `full` whole batches and then the rest is batching everything:
      the loop may commit as it goes. */
  lemma {:induction false} ChunkAppend<T>(a: seq<T>, b: seq<T>, full: nat)
    requires |a| == full * BATCH_LIMIT
    ensures Chunk(a + b) == Chunk(a) + Chunk(b)
    decreases full
  {
    if full == 0 {
      assert a + b == b;
    } else if |b| == 0 {
      assert a + b == a;
    } else {
      var ab := a + b;
      assert ab[..BATCH_LIMIT] == a[..BATCH_LIMIT];
      assert ab[BATCH_LIMIT..] == a[BATCH_LIMIT..] + b;
      ChunkAppend(a[BATCH_LIMIT..], b, full - 1);
      if full == 1 {
        assert a[..BATCH_LIMIT] == a;
        assert Chunk(a[BATCH_LIMIT..]) == [];
      }
    }
  }

  /** Closing a batch of `ops[done..upto]` after `full` whole batches
      extends the reference batching by exactly that batch. */
  lemma ChunkCloseBatch<T>(ops: seq<T>, full: nat, upto: nat)
    requires full * BATCH_LIMIT < upto <= |ops| && upto - full * BATCH_LIMIT <= BATCH_LIMIT
    ensures Chunk(ops[..upto])
            == Chunk(ops[..full * BATCH_LIMIT]) + [ops[full * BATCH_LIMIT..upto]]
  {
    var done := full * BATCH_LIMIT;
    assert ops[..done] + ops[done..upto] == ops[..upto];
    ChunkAppend(ops[..done], ops[done..upto], full);
  }
}
