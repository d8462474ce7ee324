/** The two pieces of the HTML output of `create_normative_rules.py` that
    carry logic rather than templating: the row span of a rule's name cell
    (`html_table_row`) and the splitting of a tags-table row into cells
    (`extract_tags_table_cells`). */
module HtmlTables {
  import opened Wrappers
  import opened Text
  import opened RuleDefs

  /** The rows `html_table_row` writes for one rule, in the order it writes
      them (their cell contents are left out). */
  datatype Row =
    | SummaryRow
    | NoteRow
    | DescriptionRow
    | KindRow
    | InstancesRow
    | ImpldefRow
    | ImpldefCategoryRow
    | TagRow(ref: TagRef)
    | ClarificationRow

  /** The rows written for `nr`: one per present property, the
      implementation-defined rows only when not omitted, one per tag
      reference, and the clarification row last. */
  function TableRows(nr: RuleDef, omitImpldef: bool, omitImpldefCat: bool): seq<Row> {
    RowIf(nr.summary.Some?, SummaryRow)
      + RowIf(nr.note.Some?, NoteRow)
      + RowIf(nr.description.Some?, DescriptionRow)
      + RowIf(nr.kind.Some?, KindRow)
      + RowIf(nr.instances != [], InstancesRow)
      + RowIf(!omitImpldef && nr.impldef, ImpldefRow)
      + RowIf(!omitImpldefCat && nr.impldefCategory.Some?, ImpldefCategoryRow)
      + TagRows(nr.tagRefs)
      + RowIf(nr.clarificationLink.Some?, ClarificationRow)
  }

  /** The row `row` when `written`, no row otherwise. */
  function RowIf(written: bool, row: Row): (rows: seq<Row>)
    ensures |rows| == Flag(written)
  {
    if written then [row] else []
  }

  function TagRows(refs: seq<TagRef>): (rows: seq<Row>)
    ensures |rows| == |refs|
    ensures forall j :: 0 <= j < |refs| ==> rows[j] == TagRow(refs[j])
  {
    seq(|refs|, j requires 0 <= j < |refs| => TagRow(refs[j]))
  }

  function Flag(b: bool): nat { if b then 1 else 0 }

  /** The `rowspan` of the name cell, summed property by property in the
      order of the source's sum (clarification before description). It spans
      exactly the rows written for the rule, whatever is omitted. */
  function NameRowSpan(nr: RuleDef, omitImpldef: bool, omitImpldefCat: bool): (span: nat)
    ensures span == |TableRows(nr, omitImpldef, omitImpldefCat)|
  {
    Flag(nr.summary.Some?)
      + Flag(nr.note.Some?)
      + Flag(nr.clarificationLink.Some?)
      + Flag(nr.description.Some?)
      + Flag(nr.kind.Some?)
      + Flag(nr.instances != [])
      + Flag(!omitImpldef && nr.impldef)
      + Flag(!omitImpldefCat && nr.impldefCategory.Some?)
      + |nr.tagRefs|
  }

  /** `extract_tags_table_cells`: no cells for the empty row, otherwise the
      pieces between `|` characters, each stripped. */
  function ExtractTagsTableCells(row: string): (cells: seq<string>)
    ensures cells == [] <==> row == []
    ensures row != [] ==> |cells| == Occurrences(row, '|') + 1
    ensures forall k :: 0 <= k < |cells| ==> Trimmed(cells[k]) && '|' !in cells[k]
  {
    if row == [] then []
    else
      var parts := Split(row, '|');
      seq(|parts|, k requires 0 <= k < |parts| => Strip(parts[k]))
  }

  /** Only the whitespace around each cell is lost: when no piece has any,
      joining the cells with `|` gives the row back. */
  lemma {:induction false} CellsJoinToRow(row: string)
    requires row != []
    requires forall k :: 0 <= k < |Split(row, '|')| ==> Trimmed(Split(row, '|')[k])
    ensures Join(ExtractTagsTableCells(row), '|') == row
  {
    assert ExtractTagsTableCells(row) == Split(row, '|');
    JoinSplit(row, '|');
  }
}
