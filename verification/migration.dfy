/** `migrate_csv_to_firestore`: every prepared record is cleaned and set on a
    freshly generated document, and the sets are committed in batches. */
module Migration {
  import opened Text
  import opened Values
  import opened Cleaning
  import opened Store
  import opened Batching
  import opened Arithmetic
  import opened View

  /** `batch.set(collection_ref.document(), cleaned_record)` for the record
      read as the `serial`-th one. */
  function RecordSet(serial: nat, record: seq<Field>): (w: WriteOp)
    ensures w.doc == AutoId(serial) && !w.merge
    ensures forall k :: k in w.data ==> Stripped(k) && Present(w.data[k])
    ensures forall k :: k in w.data <==> exists j :: Supplies(record, j, k)
    ensures forall j :: 0 <= j < |record| && Present(record[j].1)
              && (forall l :: j < l < |record| && Present(record[l].1) ==> Strip(record[l].0) != Strip(record[j].0))
              ==> Strip(record[j].0) in w.data && w.data[Strip(record[j].0)] == record[j].1
  {
    forall k
      ensures k in CleanRecord(record) <==> exists j :: Supplies(record, j, k)
    {
      CleanRecordKeys(record, k);
    }
    forall j | 0 <= j < |record| && Present(record[j].1)
               && (forall l :: j < l < |record| && Present(record[l].1) ==> Strip(record[l].0) != Strip(record[j].0))
      ensures Strip(record[j].0) in CleanRecord(record)
      ensures CleanRecord(record)[Strip(record[j].0)] == record[j].1
    {
      CleanRecordValue(record, j);
    }
    Set(AutoId(serial), CleanRecord(record), false)
  }

  /** The set operation issued for each record, in input order: record `i` is
      written, cleaned, to the `i`-th generated document, without merge. */
  function MigrationOps(data: seq<seq<Field>>): (ops: seq<WriteOp>)
    ensures |ops| == |data|
    ensures forall i :: 0 <= i < |data| ==> ops[i] == RecordSet(i, data[i])
  {
    Issued(data, RecordSet)
  }

  /** The operations issued for `data`, record `i` through `op(i, data[i])`. */
  function Issued<R>(data: seq<R>, op: (nat, R) -> WriteOp): (ops: seq<WriteOp>)
    ensures |ops| == |data|
    ensures forall i :: 0 <= i < |data| ==> ops[i] == op(i, data[i])
  {
    seq(|data|, i requires 0 <= i < |data| => op(i, data[i]))
  }

  /** The record loop with its batch and record counters, for any per-record
      operation `op`: each record's operation joins the open batch, which is
      committed when it reaches `BATCH_LIMIT` operations and, if non-empty,
      once more after the last record. */
  method CommitRecords<R>(data: seq<R>, op: (nat, R) -> WriteOp)
    returns (log: seq<Batch>, recordCounter: nat)
    ensures recordCounter == |data|
    ensures log == Chunk(Issued(data, op))
  {
    ghost var ops := Issued(data, op);
    ghost var full: nat := 0;
    log := [];
    var batch: Batch := [];
    var batchCounter: nat := 0;
    recordCounter := 0;
    for i := 0 to |data|
      invariant recordCounter == i
      invariant batchCounter == |batch| < BATCH_LIMIT
      invariant full * BATCH_LIMIT + batchCounter == i
      invariant batch == ops[full * BATCH_LIMIT..i]
      invariant log == Chunk(ops[..full * BATCH_LIMIT])
    {
      assert ops[full * BATCH_LIMIT..i + 1] == batch + [ops[i]];
      batch := batch + [op(recordCounter, data[i])];
      batchCounter := batchCounter + 1;
      recordCounter := recordCounter + 1;

      if batchCounter >= BATCH_LIMIT {
        ChunkCloseBatch(ops, full, i + 1);
        log := log + [batch];
        batch := [];
        batchCounter := 0;
        full := full + 1;
      }
    }

    if batchCounter > 0 {
      ChunkCloseBatch(ops, full, |data|);
      log := log + [batch];
    }
    assert ops[..|data|] == ops;
  }

  /** The migration's record loop: one cleaned set per record on a fresh
      document, committed in batches of 1 to `BATCH_LIMIT` operations. */
  method MigrateRecords(data: seq<seq<Field>>) returns (log: seq<Batch>, recordCounter: nat)
    ensures recordCounter == |data|
    ensures log == Chunk(MigrationOps(data))
    ensures Flatten(log) == MigrationOps(data)
    ensures forall b :: b in log ==> 1 <= |b| <= BATCH_LIMIT
    ensures |log| == CeilDiv(|data|, BATCH_LIMIT)
    ensures log == [] <==> data == []
  {
    log, recordCounter := CommitRecords(data, RecordSet);
    ChunkShape(MigrationOps(data));
  }

  /** The outcome of reading the flat file. */
  datatype ReadResult = Read(frame: Frame) | ReadError(message: string)

  datatype MigrationOutcome =
    | ReadFailed(message: string)
    | Migrated(log: seq<Batch>, recordCounter: nat)

  /** The whole migration: a file that cannot be read commits nothing;
      otherwise the non-empty rows are written once each, in order. */
  method MigrateCsv(read: ReadResult) returns (outcome: MigrationOutcome)
    requires read.Read? ==> WellFormed(read.frame)
    ensures read.ReadError? ==> outcome == ReadFailed(read.message)
    ensures read.Read? ==> outcome.Migrated?
    ensures read.Read? ==> outcome.recordCounter == |DropEmptyRows(read.frame.rows)|
    ensures read.Read? ==> Flatten(outcome.log) == MigrationOps(PrepareRecords(read.frame))
    ensures read.Read? ==> forall b :: b in outcome.log ==> 1 <= |b| <= BATCH_LIMIT
  {
    match read
    case ReadError(message) =>
      outcome := ReadFailed(message);
    case Read(frame) =>
      var data := PrepareRecords(frame);
      var log, recordCounter := MigrateRecords(data);
      outcome := Migrated(log, recordCounter);
  }

  /** The collection a migration into an empty collection leaves behind, as
      `load_data` reads it back: the document created for record `i`, whose
      generated id `AutoId(i)` reads as `idOf(i)`, holds the data set on it. */
  function CreatedDocs(data: seq<seq<Field>>, idOf: nat -> string): (table: seq<Doc>)
    ensures |table| == |data|
  {
    var ops := MigrationOps(data);
    seq(|data|, i requires 0 <= i < |data| => Doc(idOf(i), ops[i].data))
  }

  /** After a migration into an empty collection the frame is `df.empty`, and
      the page offers the migration again, exactly when no record had a
      present value. */
  lemma MigratedFrameEmpty(data: seq<seq<Field>>, idOf: nat -> string)
    ensures FrameEmpty(CreatedDocs(data, idOf)) <==>
            forall i, j :: 0 <= i < |data| && 0 <= j < |data[i]| ==> !Present(data[i][j].1)
  {
    var table := CreatedDocs(data, idOf);
    if exists i, j :: 0 <= i < |data| && 0 <= j < |data[i]| && Present(data[i][j].1) {
      var i, j :| 0 <= i < |data| && 0 <= j < |data[i]| && Present(data[i][j].1);
      CleanRecordHasKey(data[i], j);
      assert table[i] in table;
    } else {
      forall d | d in table
        ensures d.fields == map[]
      {
        var i :| 0 <= i < |table| && table[i] == d;
        forall k
          ensures k !in d.fields
        {
          CleanRecordKeys(data[i], k);
        }
        assert d.fields.Keys == {};
      }
    }
  }

  /** A file whose one row holds nothing but its index is migrated into a
      document without fields, so the page still finds the collection empty
      and offers the migration again. */
  lemma IndexOnlyFileIsOfferedAgain(idOf: nat -> string)
    ensures FrameEmpty(CreatedDocs(PrepareRecords(Frame([INDEX_COLUMN, "Name"], [[Int(0), Missing]])), idOf))
  {
    var data := PrepareRecords(Frame([INDEX_COLUMN, "Name"], [[Int(0), Missing]]));
    IndexOnlyRowBecomesEmptyRecord();
    var table := CreatedDocs(data, idOf);
    assert table == [Doc(idOf(0), map[])];
  }
}
