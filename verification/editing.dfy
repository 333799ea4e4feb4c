/** `update_firestore_record`: the data editor's edited rows become merge-sets
    in one batch, committed once. */
module Editing {
  import opened Text
  import opened Values
  import opened Store
  import opened Attendance
  import opened Paging

  /** One entry of `edited_rows`: the key `st.data_editor` reports, which is
      the row's 0-based position in the page it shows, and the changed fields
      of that row. `EditDocRef` turns the key into the document id `"0"`,
      `"1"`, ..., not into the `_doc_id` of the row shown there. */
  datatype Edit = Edit(row: nat, changes: map<string, Value>)

  /** The editor's session state; `editedRows` is `None` when the state has
      no `edited_rows` entry. */
  datatype EditorState = EditorState(editedRows: Option<seq<Edit>>)

  /** What the user is told. */
  datatype SaveNotice = NoChangesToSave | NoChangesDetected | Saved(count: nat)

  /** The commits made and whether the cached table is cleared for a re-read. */
  datatype SaveResult = SaveResult(
    notice: SaveNotice, committed: seq<Batch>, updateCount: nat, cacheCleared: bool)

  /** The keys of a dict are distinct. */
  predicate DistinctRows(edits: seq<Edit>) {
    forall i, j :: 0 <= i < j < |edits| ==> edits[i].row != edits[j].row
  }

  /** `.get('edited_rows', {})`. */
  function EditedRows(state: EditorState): seq<Edit> {
    if state.editedRows.Some? then state.editedRows.value else []
  }

  /** `document(str(doc_id))`: the editor's row key is used as the document
      id as it is, rendered in decimal. */
  function EditDocRef(row: nat): (ref: DocRef)
    ensures ref.Named? && |ref.id| >= 1
    ensures forall i :: 0 <= i < |ref.id| ==> IsDigit(ref.id[i])
    ensures DigitsValue(ref.id) == row
    ensures ref.id[0] == '0' ==> ref.id == "0"
  {
    NatToStringRoundTrip(row);
    Named(NatToString(row))
  }

  /** Different row keys address different documents. */
  lemma EditDocRefInjective(a: nat, b: nat)
    ensures EditDocRef(a) == EditDocRef(b) <==> a == b
  {
    NatToStringInjective(a, b);
  }

  /** The merge-set for one edited row. */
  function EditSet(edit: Edit): (w: WriteOp)
    ensures w.merge
    ensures w.doc == EditDocRef(edit.row)
    ensures w.data.Keys == edit.changes.Keys
    ensures forall k :: k in edit.changes && k != ATTENDED_COLUMN ==> w.data[k] == edit.changes[k]
    ensures ATTENDED_COLUMN in edit.changes ==> w.data[ATTENDED_COLUMN] in {Str("Yes"), Str("No")}
    ensures ATTENDED_COLUMN in edit.changes ==>
              (w.data[ATTENDED_COLUMN] == Str("Yes") <==> Truthy(edit.changes[ATTENDED_COLUMN]))
  {
    Set(EditDocRef(edit.row), WriteBackAttended(edit.changes), true)
  }

  method SaveEdits(session: Option<EditorState>) returns (result: SaveResult)
    requires session.Some? ==> DistinctRows(EditedRows(session.value))
    ensures session.None? ==> result == SaveResult(NoChangesToSave, [], 0, false)
    ensures session.Some? && EditedRows(session.value) == [] ==>
              result == SaveResult(NoChangesDetected, [], 0, false)
    ensures session.Some? && EditedRows(session.value) != [] ==>
              var edits := EditedRows(session.value);
              && result.notice == Saved(|edits|)
              && result.updateCount == |edits|
              && result.cacheCleared
              && |result.committed| == 1
              && |result.committed[0]| == |edits|
              && (forall i :: 0 <= i < |edits| ==>
                    result.committed[0][i].doc == EditDocRef(edits[i].row)
                    && result.committed[0][i].data == WriteBackAttended(edits[i].changes)
                    && result.committed[0][i].merge)
              && (forall i, j :: 0 <= i < j < |edits| ==>
                    result.committed[0][i].doc != result.committed[0][j].doc)
  {
    if session.None? {
      return SaveResult(NoChangesToSave, [], 0, false);
    }
    var edits := EditedRows(session.value);
    if |edits| == 0 {
      return SaveResult(NoChangesDetected, [], 0, false);
    }

    var batch: Batch := [];
    var updateCount: nat := 0;
    for k := 0 to |edits|
      invariant updateCount == k == |batch|
      invariant forall i :: 0 <= i < k ==> batch[i] == EditSet(edits[i])
    {
      var edit := edits[k];
      var docRef := EditDocRef(edit.row);
      var changes := WriteBackAttended(edit.changes);
      batch := batch + [Set(docRef, changes, true)];
      updateCount := updateCount + 1;
    }

    var committed: seq<Batch> := [];
    if updateCount > 0 {
      committed := committed + [batch];
    }
    forall i, j | 0 <= i < j < |edits|
      ensures batch[i].doc != batch[j].doc
    {
      EditDocRefInjective(edits[i].row, edits[j].row);
    }
    result := SaveResult(Saved(updateCount), committed, updateCount, true);
  }

  /** The row keys of the edits. */
  function RowSet(edits: seq<Edit>): set<nat> {
    set i | 0 <= i < |edits| :: edits[i].row
  }

  /** Distinct keys make as many rows as there are edits. */
  lemma {:induction false} RowSetSize(edits: seq<Edit>)
    requires DistinctRows(edits)
    ensures |RowSet(edits)| == |edits|
    decreases |edits|
  {
    if |edits| > 0 {
      var prefix := edits[..|edits| - 1];
      var last := edits[|edits| - 1].row;
      RowSetSize(prefix);
      forall r | r in RowSet(edits)
        ensures r in RowSet(prefix) + {last}
      {
        var i :| 0 <= i < |edits| && edits[i].row == r;
        if i < |prefix| {
          assert prefix[i].row == r;
        }
      }
      forall r | r in RowSet(prefix) + {last}
        ensures r in RowSet(edits)
      {
        if r != last {
          var i :| 0 <= i < |prefix| && prefix[i].row == r;
          assert edits[i].row == r;
        }
      }
      assert RowSet(edits) == RowSet(prefix) + {last};
      assert last !in RowSet(prefix);
    }
  }

  /** The positions `0 .. n - 1`. */
  function Below(n: nat): (s: set<nat>)
    ensures |s| == n
    ensures forall x: nat :: x in s <==> x < n
  {
    if n == 0 then {} else Below(n - 1) + {n - 1}
  }

  /** Distinct row keys below `n` number at most `n`. */
  lemma DistinctRowsBelow(edits: seq<Edit>, n: nat)
    requires DistinctRows(edits)
    requires forall i :: 0 <= i < |edits| ==> edits[i].row < n
    ensures |edits| <= n
  {
    RowSetSize(edits);
    var below := Below(n);
    forall r | r in RowSet(edits)
      ensures r in below
    {
    }
    SubsetSize(RowSet(edits), below);
  }

  lemma {:induction false} SubsetSize(a: set<nat>, b: set<nat>)
    requires a <= b
    ensures |a| <= |b|
    decreases |a|
  {
    if a != {} {
      var x :| x in a;
      SubsetSize(a - {x}, b - {x});
    }
  }

  /** Edits made on one page touch at most `ROWS_PER_PAGE` distinct rows, so
      the single unchunked batch of the save path stays below the store's
      limit of 500 operations. */
  lemma PageEditsFitOneBatch(edits: seq<Edit>)
    requires DistinctRows(edits)
    requires forall i :: 0 <= i < |edits| ==> edits[i].row < ROWS_PER_PAGE
    ensures |edits| <= ROWS_PER_PAGE < 500
  {
    DistinctRowsBelow(edits, ROWS_PER_PAGE);
  }
}
