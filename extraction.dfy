/**
 * `extract_tables_from_pdf`: the structured extractor's tables when it returns any, otherwise
 * the text fallback's sections, each handed to the DataFrame constructor.
 */
module Extraction {
  import opened Wrappers
  import opened Fallback
  import opened Cleaning
  import opened Strings

  predicate Rectangular(t: TextTable) {
    forall i :: 0 <= i < |t.rows| ==> |t.rows[i]| == |t.header|
  }

  /**
   * `pd.DataFrame(data, columns=header)` for a parsed section: a frame with the header as its
   * columns and every cell present, when each row has one cell per header name; `None` when
   * the constructor does not accept the rows as they are.
   */
  function ToFrame(t: TextTable): (r: Option<Frame>)
    ensures r.Some? <==> Rectangular(t)
    ensures r.Some? ==> WellFormed(r.value) && r.value.columns == t.header && |r.value.rows| == |t.rows|
    ensures r.Some? ==> forall i, j :: 0 <= i < |t.rows| && 0 <= j < |t.rows[i]| ==>
                          r.value.rows[i][j] == Some(t.rows[i][j])
  {
    if Rectangular(t) then
      Some(Frame(t.header, seq(|t.rows|, i requires 0 <= i < |t.rows| =>
        seq(|t.rows[i]|, j requires 0 <= j < |t.rows[i]| => Some(t.rows[i][j])))))
    else None
  }

  /** The frames of all parsed sections, in order, or `None` if any of them cannot be built. */
  function FramesOf(ts: seq<TextTable>): (r: Option<seq<Frame>>)
    ensures r.Some? <==> forall k :: 0 <= k < |ts| ==> Rectangular(ts[k])
    ensures r.Some? ==> |r.value| == |ts| && AllWellFormed(r.value)
    ensures r.Some? ==> forall k :: 0 <= k < |ts| ==> ToFrame(ts[k]) == Some(r.value[k])
  {
    if forall k :: 0 <= k < |ts| ==> Rectangular(ts[k]) then
      Some(seq(|ts|, k requires 0 <= k < |ts| => ToFrame(ts[k]).value))
    else None
  }

  /**
   * The structured result is `None` when the extractor raised. A non-empty list is returned as
   * it is and the text is never parsed; otherwise the fallback's sections are returned, and
   * `None` stands for the DataFrame constructor raising on one of them.
   */
  method ExtractTablesFromPdf(structured: Option<seq<Frame>>, text: string) returns (r: Option<seq<Frame>>)
    ensures structured.Some? && structured.value != [] ==> r == structured
    ensures !(structured.Some? && structured.value != []) ==>
      r == FramesOf(Assemble(TableFromText(text, PurchaseTitle), TableFromText(text, SaleTitle)))
  {
    if structured.Some? && structured.value != [] {
      return structured;
    }
    var found := FallbackTables(text);
    r := FramesOf(found);
  }

  /**
   * A fallback section with fewer than two data rows becomes a frame, but the shape gate of the
   * collection loop then drops it: only sections of two or more rows reach the workbook.
   */
  lemma ShortSectionDropped(t: TextTable)
    requires Rectangular(t) && |t.rows| <= 1
    ensures ToFrame(t).Some? && Admit(ToFrame(t).value).None?
  {
  }

  /** A title followed by blank lines only yields a one-column frame without rows, dropped likewise. */
  lemma BlankSectionDropped(block: string)
    requires AllSpace(block)
    ensures ToFrame(TableOfBlock(block)) == Some(Frame([""], []))
    ensures Admit(Frame([""], [])).None?
  {
    BlankBlockTable(block);
  }
}
