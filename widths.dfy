/**
 * The column-width pass over the written workbook: each column is as wide as its longest
 * string value plus two. Only string values count: for a number or an empty cell, `len`
 * of the value raises inside the `try`, and the bare `except` leaves the maximum as it was.
 */
module Widths {

  /** A worksheet cell's value: a string, a number (or any other non-string value), or nothing. */
  datatype Cell = Str(s: string) | Num | Empty

  const Padding: nat := 2

  /** The length of the longest string value in the column, 0 when it holds none. */
  function MaxStringLength(column: seq<Cell>): (m: nat)
    ensures forall k :: 0 <= k < |column| && column[k].Str? ==> |column[k].s| <= m
    ensures m == 0 || exists k :: 0 <= k < |column| && column[k].Str? && |column[k].s| == m
  {
    if column == [] then 0
    else
      var init := column[..|column| - 1];
      var rest := MaxStringLength(init);
      assert forall k :: 0 <= k < |init| ==> column[k] == init[k];
      match column[|column| - 1]
      case Str(s) => if |s| > rest then |s| else rest
      case _ => rest
  }

  /** The loop over a column's cells that sets its display width. */
  method ColumnWidth(column: seq<Cell>) returns (width: nat)
    ensures width == MaxStringLength(column) + Padding
    ensures forall k :: 0 <= k < |column| && column[k].Str? ==> |column[k].s| + Padding <= width
    ensures width == Padding || exists k :: 0 <= k < |column| && column[k].Str? && |column[k].s| + Padding == width
  {
    var maxLength := 0;
    for k := 0 to |column|
      invariant maxLength == MaxStringLength(column[..k])
    {
      assert column[..k + 1][..k] == column[..k];
      match column[k]
      case Str(s) =>
        if |s| > maxLength {
          maxLength := |s|;
        }
      case _ =>
        // `len` of a non-string value raises; the exception is swallowed
    }
    assert column[..|column|] == column;
    width := maxLength + Padding;
  }

  /** Removing a cell that does not hold a string leaves the width unchanged. */
  lemma NonStringCellIgnored(column: seq<Cell>, k: nat)
    requires k < |column| && !column[k].Str?
    ensures MaxStringLength(column[..k] + column[k + 1..]) == MaxStringLength(column)
  {
    var rest := column[..k] + column[k + 1..];
    var m, m' := MaxStringLength(column), MaxStringLength(rest);
    assert |rest| == |column| - 1;
    assert forall i :: 0 <= i < k ==> rest[i] == column[i];
    assert forall i :: k <= i < |rest| ==> rest[i] == column[i + 1];
    if m' != 0 {
      var i :| 0 <= i < |rest| && rest[i].Str? && |rest[i].s| == m';
      if i < k {
        assert rest[i] == column[i];
      } else {
        assert rest[i] == column[i + 1];
      }
    }
    assert m' <= m;
    if m != 0 {
      var j :| 0 <= j < |column| && column[j].Str? && |column[j].s| == m;
      if j < k {
        assert rest[j] == column[j];
      } else {
        assert j != k;
        assert rest[j - 1] == column[j];
      }
    }
    assert m <= m';
  }
}
