/** The page of the table the editor shows, with the `Attended` column turned
    into checkbox states. */
module View {
  import opened Values
  import opened Paging
  import opened Attendance

  /** A stored document as `load_data` reads it: its id and its fields. */
  datatype Doc = Doc(id: string, fields: map<string, Value>)

  /** A document's cell in a column: NaN when the document lacks the field. */
  function Cell(d: Doc, column: string): Value {
    if column in d.fields then d.fields[column] else Missing
  }

  /** `df.empty` for the frame `load_data` builds. `_doc_id` becomes its index,
      so it has a column only when some document holds a field: documents
      without fields, like no documents at all, make an empty frame and the
      page offers the migration instead of the table. */
  predicate FrameEmpty(table: seq<Doc>) {
    forall d :: d in table ==> d.fields == map[]
  }

  /** The table is shown only for a frame that is not empty, and such a frame
      has at least one document, so page 1 can be selected. */
  lemma ShownTableHasPages(table: seq<Doc>)
    requires !FrameEmpty(table)
    ensures |table| > 0
    ensures ValidPage(|table|, 1)
  {
    var d :| d in table && d.fields != map[];
    NonEmptyHasPages(|table|);
  }

  /** The checkbox column of `page`. The table has no `Attended` column at all
      when no document holds the field, and selecting it then fails (`None`). */
  function ShowAttended(table: seq<Doc>, page: nat): (shown: Option<seq<bool>>)
    requires !FrameEmpty(table)
    requires ValidPage(|table|, page)
    ensures shown.None? <==> forall d :: d in table ==> ATTENDED_COLUMN !in d.fields
    ensures shown.Some? ==> |shown.value| == |PageSlice(table, page)|
    ensures shown.Some? ==> forall j :: 0 <= j < |shown.value| ==>
              (shown.value[j] <==> Ticked(Cell(table[PageStart(|table|, page) + j], ATTENDED_COLUMN)))
  {
    if forall d :: d in table ==> ATTENDED_COLUMN !in d.fields then None
    else
      var rows := PageSlice(table, page);
      Some(seq(|rows|, j requires 0 <= j < |rows| => Ticked(Cell(rows[j], ATTENDED_COLUMN))))
  }
}
