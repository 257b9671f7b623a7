/**
 * The text fallback of the extractor: find a fixed section title, take the block
 * after it up to the first blank line, and cut it into a header and data rows
 * (`extract_table_from_text` and the `found_tables` assembly of
 * `extract_tables_from_pdf`).
 */
module Fallback {
  import opened Wrappers
  import opened Strings

  const PurchaseTitle: string := "A. II. DETAILS OF OMO PURCHASE ISSUE"
  const SaleTitle: string := "B. II. DETAILS OF OMO SALE ISSUE"
  const BlankLine: string := "\n\n"

  /** A parsed section, before it is handed to the DataFrame constructor. */
  datatype TextTable = TextTable(header: seq<string>, rows: seq<seq<string>>)

  /**
   * The block captured by `title + r"\n(.*?)(?=\n\n|\Z)"` under DOTALL: it begins right after
   * the leftmost `title` + newline and stops at the first blank line at or after that point,
   * or at the end of the text.
   */
  function Block(text: string, title: string): (b: Option<string>)
    ensures b.None? <==> Find(text, title + "\n").None?
    ensures b.Some? ==>
      var start := Find(text, title + "\n").value + |title| + 1;
      var end := start + |b.value|;
      end <= |text| && b.value == text[start..end] &&
      (end == |text| || OccursAt(text, BlankLine, end)) &&
      forall j :: start <= j < end ==> !OccursAt(text, BlankLine, j)
  {
    match Find(text, title + "\n")
    case None => None
    case Some(i) =>
      var start := i + |title| + 1;
      var end := match FindFrom(text, BlankLine, start)
        case Some(j) => j
        case None => |text|;
      Some(text[start..end])
  }

  /** `table_text.strip().split('\n')` */
  function Lines(block: string): (r: seq<string>)
    ensures |r| >= 1
  {
    Split(Strip(block), '\n')
  }

  /** `[x.strip() for x in line.split(',')]` */
  function HeaderCells(line: string): (r: seq<string>)
    ensures |r| == Count(line, ',') + 1
    ensures forall k :: 0 <= k < |r| ==> IsStripped(r[k])
  {
    StripAll(Split(line, ','))
  }

  /** `[x.strip() for x in re.split(r',(?!\s)', line)]` */
  function RowCells(line: string): (r: seq<string>)
    ensures |r| == CutCount(line) + 1
    ensures forall k :: 0 <= k < |r| ==> IsStripped(r[k])
  {
    StripAll(SplitRow(line))
  }

  /** The table a list of lines yields: the first line as header, then one row per further line. */
  function TableOfLines(lines: seq<string>): (t: TextTable)
    requires |lines| >= 1
    ensures t.header == HeaderCells(lines[0])
    ensures |t.rows| == |lines| - 1
    ensures forall k :: 0 <= k < |t.rows| ==> t.rows[k] == RowCells(lines[k + 1])
  {
    TextTable(HeaderCells(lines[0]), DataRows(lines[1..]))
  }

  /** `[row_cells(line) for line in lines]`: one row per line, in order. */
  function DataRows(lines: seq<string>): (rows: seq<seq<string>>)
    ensures |rows| == |lines|
    ensures forall k :: 0 <= k < |rows| ==> rows[k] == RowCells(lines[k])
  {
    seq(|lines|, k requires 0 <= k < |lines| => RowCells(lines[k]))
  }

  /**
   * The table a block yields: the header from its first line, then one row per further line in
   * line order. A block always yields a table (its line list is never empty).
   */
  function TableOfBlock(block: string): (t: TextTable)
    ensures t.header == HeaderCells(Lines(block)[0])
    ensures |t.rows| == |Lines(block)| - 1
    ensures forall k :: 0 <= k < |t.rows| ==> t.rows[k] == RowCells(Lines(block)[k + 1])
  {
    TableOfLines(Lines(block))
  }

  /** What `extract_table_from_text(text, title)` computes, with the title as a literal. */
  function TableFromText(text: string, title: string): (r: Option<TextTable>)
    ensures r.None? <==> forall i: nat :: !OccursAt(text, title + "\n", i)
    ensures r.Some? ==> Block(text, title).Some? && r.value == TableOfBlock(Block(text, title).value)
  {
    match Block(text, title)
    case None => None
    case Some(b) => Some(TableOfBlock(b))
  }

  /** Lines 21-25 of `extract_table_from_text`: the header, then the row loop. */
  method ParseLines(lines: seq<string>) returns (t: TextTable)
    requires |lines| >= 1
    ensures t == TableOfLines(lines)
  {
    var header := HeaderCells(lines[0]);
    var data: seq<seq<string>> := [];
    var i := 1;
    while i < |lines|
      invariant 1 <= i <= |lines|
      invariant |data| == i - 1
      invariant forall k :: 0 <= k < i - 1 ==> data[k] == RowCells(lines[k + 1])
    {
      var row := RowCells(lines[i]);
      data := data + [row];
      i := i + 1;
    }
    RowsOfLines(lines, data);
    t := TextTable(header, data);
  }

  /** Rows that match the lines one for one are the rows of the lines' table. */
  lemma RowsOfLines(lines: seq<string>, data: seq<seq<string>>)
    requires |lines| >= 1 && |data| == |lines| - 1
    requires forall k :: 0 <= k < |data| ==> data[k] == RowCells(lines[k + 1])
    ensures data == TableOfLines(lines).rows
  {
    var rows := TableOfLines(lines).rows;
    assert forall k :: 0 <= k < |data| ==> data[k] == rows[k];
  }

  /** `extract_table_from_text`: `None` when the title is not found, else the block's table. */
  method ExtractTableFromText(text: string, title: string) returns (r: Option<TextTable>)
    ensures r == TableFromText(text, title)
  {
    var block := Block(text, title);
    if block.None? {
      return None;
    }
    var lines := Lines(block.value);
    var t := ParseLines(lines);
    r := Some(t);
  }

  /**
   * The list built from the two section results: the purchase table first when it was found,
   * then the sale table when it was found, and nothing else.
   */
  function Assemble(purchase: Option<TextTable>, sale: Option<TextTable>): (found: seq<TextTable>)
    ensures |found| <= 2
    ensures |found| == (if purchase.Some? then 1 else 0) + (if sale.Some? then 1 else 0)
    ensures purchase.Some? ==> found[0] == purchase.value
    ensures sale.Some? ==> found[|found| - 1] == sale.value
  {
    ToSeq(purchase) + ToSeq(sale)
  }

  /** Lines 49-53: start from an empty list and append each section's table that was found. */
  method AppendFound(table1: Option<TextTable>, table2: Option<TextTable>) returns (found: seq<TextTable>)
    ensures found == Assemble(table1, table2)
  {
    found := [];
    if table1.Some? {
      found := found + [table1.value];
    }
    if table2.Some? {
      found := found + [table2.value];
    }
  }

  /** The `found_tables` assembly for two section titles, tried in order. */
  method FindSections(text: string, first: string, second: string) returns (found: seq<TextTable>)
    ensures found == Assemble(TableFromText(text, first), TableFromText(text, second))
  {
    var table1 := ExtractTableFromText(text, first);
    var table2 := ExtractTableFromText(text, second);
    found := AppendFound(table1, table2);
  }

  /** The fallback branch of `extract_tables_from_pdf`: the purchase section, then the sale section. */
  method FallbackTables(text: string) returns (found: seq<TextTable>)
    ensures found == Assemble(TableFromText(text, PurchaseTitle), TableFromText(text, SaleTitle))
  {
    found := FindSections(text, PurchaseTitle, SaleTitle);
  }

  // ---------------------------------------------------------------------------
  // Properties of the parse
  // ---------------------------------------------------------------------------

  /** A blank block still yields a table: the header is the single empty name and there are no rows. */
  lemma BlankBlockTable(block: string)
    requires AllSpace(block)
    ensures TableOfBlock(block) == TextTable([""], [])
  {
    StripAllSpace(block);
    assert Lines(block) == Split([], '\n') == [[]];
    assert HeaderCells([]) == StripAll(Split([], ',')) == StripAll([[]]) == [[]];
  }

  /** A block of one line yields a header and no data rows. */
  lemma {:induction false} OneLineNoRows(block: string)
    requires '\n' !in Strip(block)
    ensures TableOfBlock(block).rows == []
    ensures TableOfBlock(block).header == HeaderCells(Strip(block))
  {
    SplitNoSep(Strip(block), '\n');
  }

  /** A section written out under its title, with no blank line inside, is found as written. */
  lemma {:induction false} BlockOfSection(title: string, body: string)
    requires forall j: nat :: !OccursAt(body, BlankLine, j)
    ensures Block(title + "\n" + body, title) == Some(body)
  {
    var text := title + "\n" + body;
    var start := |title| + 1;
    assert OccursAt(text, title + "\n", 0);
    assert Find(text, title + "\n") == Some(0);
    assert text[start..] == body;
    forall j: nat | start <= j
      ensures !OccursAt(text, BlankLine, j)
    {
      if j + 2 <= |text| {
        assert text[j..j + 2] == body[j - start..j - start + 2];
        assert !OccursAt(body, BlankLine, j - start);
      }
    }
    assert FindFrom(text, BlankLine, start).None?;
    assert text[start..|text|] == body;
  }

  /** Header name `k` is piece `k` of the line cut at every comma, stripped. */
  lemma HeaderCellsPieces(line: string)
    ensures |HeaderCells(line)| == |Split(line, ',')|
    ensures forall k :: 0 <= k < |HeaderCells(line)| ==> HeaderCells(line)[k] == Strip(Split(line, ',')[k])
  {
  }

  /** Row cell `k` is piece `k` of the line cut at commas not followed by whitespace, stripped. */
  lemma RowCellsPieces(line: string)
    ensures |RowCells(line)| == |SplitRow(line)|
    ensures forall k :: 0 <= k < |RowCells(line)| ==> RowCells(line)[k] == Strip(SplitRow(line)[k])
  {
  }

  /**
   * The header rule undoes joining names with commas: stripped names without a comma, joined
   * by commas, come back as exactly those names, in order.
   */
  lemma HeaderCellsJoin(parts: seq<string>)
    requires |parts| >= 1
    requires forall k :: 0 <= k < |parts| ==> ',' !in parts[k] && IsStripped(parts[k])
    ensures HeaderCells(Join(parts, ',')) == parts
  {
    SplitJoin(parts, ',');
    StripAllStripped(parts);
  }

  /**
   * The row rule undoes joining cells with commas: stripped cells holding no comma the pattern
   * would cut at, each after the first not starting with whitespace, come back as exactly those
   * cells, in order.
   */
  lemma RowCellsJoin(parts: seq<string>)
    requires |parts| >= 1
    requires forall k :: 0 <= k < |parts| ==> NoCut(parts[k]) && IsStripped(parts[k])
    requires forall k :: 1 <= k < |parts| ==> parts[k] == [] || !IsSpace(parts[k][0])
    ensures RowCells(Join(parts, ',')) == parts
  {
    SplitRowJoin(parts);
    StripAllStripped(parts);
  }

  /** A cut comma between two stripped cells that hold no cut comma gives exactly those two cells. */
  lemma TwoCellRow(a: string, b: string)
    requires NoCut(a) && NoCut(b) && (b == [] || !IsSpace(b[0]))
    requires IsStripped(a) && IsStripped(b)
    ensures RowCells(a + [','] + b) == [a, b]
  {
    assert Join([a, b], ',') == a + [','] + b by {
      assert [a, b][1..] == [b];
    }
    RowCellsJoin([a, b]);
  }

  /** Row cells are never cut at a comma followed by whitespace: `"1,2, 1000"` is two cells. */
  lemma ThousandsRow(a: string, b: string)
    requires a == "1" && b == "2, 1000"
    ensures RowCells(a + "," + b) == [a, b]
  {
    assert b[1] == ',' && IsSpace(b[2]);
    TwoCellRow(a, b);
  }

  /** Three stripped names without commas, joined by commas, give back those three names. */
  lemma ThreeNameHeader(a: string, b: string, c: string)
    requires ',' !in a && ',' !in b && ',' !in c
    requires IsStripped(a) && IsStripped(b) && IsStripped(c)
    ensures HeaderCells(a + [','] + b + [','] + c) == [a, b, c]
  {
    assert Join([a, b, c], ',') == a + [','] + b + [','] + c by {
      assert [a, b, c][1..] == [b, c] && [b, c][1..] == [c];
      assert Join([b, c], ',') == b + [','] + c;
      assert a + [','] + (b + [','] + c) == a + [','] + b + [','] + c;
    }
    HeaderCellsJoin([a, b, c]);
  }

  /** A header line is cut at every comma: `"A,B,C"` is three names. */
  lemma ExampleHeader(a: string, b: string, c: string)
    requires a == "A" && b == "B" && c == "C"
    ensures HeaderCells(a + "," + b + "," + c) == [a, b, c]
  {
    ThreeNameHeader(a, b, c);
  }

  lemma NoBlankLineBetween(first: string, second: string)
    requires '\n' !in first && '\n' !in second && first != [] && second != []
    ensures forall j: nat :: !OccursAt(first + "\n" + second, BlankLine, j)
  {
    var body := first + "\n" + second;
    forall j: nat
      ensures !OccursAt(body, BlankLine, j)
    {
      if j + 2 <= |body| {
        if j < |first| {
          assert body[j..j + 2][0] == first[j];
        } else if j > |first| {
          assert body[j..j + 2][0] == second[j - |first| - 1];
        } else {
          assert body[j..j + 2][1] == second[0];
        }
      }
    }
  }

  /** A stripped block of two lines splits into those two lines. */
  lemma TwoLines(first: string, second: string)
    requires '\n' !in first && '\n' !in second && IsStripped(first + "\n" + second)
    ensures Lines(first + "\n" + second) == [first, second]
  {
    StripStripped(first + "\n" + second);
    assert Join([first, second], '\n') == first + "\n" + second;
    SplitJoin([first, second], '\n');
  }

  /** A block of exactly two lines is a header and one row. */
  lemma TwoLineTable(block: string, first: string, second: string)
    requires Lines(block) == [first, second]
    ensures TableOfBlock(block) == TextTable(HeaderCells(first), [RowCells(second)])
  {
  }

  /** A section found under its title yields the table of its block. */
  lemma SectionTable(title: string, body: string, t: TextTable)
    requires forall j: nat :: !OccursAt(body, BlankLine, j)
    requires TableOfBlock(body) == t
    ensures TableFromText(title + "\n" + body, title) == Some(t)
  {
    BlockOfSection(title, body);
  }

  /**
   * A section of two stripped lines with no blank line between them, written under its title,
   * parses to the first line's header cells and one row of the second line's cells.
   */
  lemma TwoLineSection(title: string, first: string, second: string)
    requires '\n' !in first && '\n' !in second
    requires first != [] && second != [] && IsStripped(first + "\n" + second)
    ensures TableFromText(title + "\n" + first + "\n" + second, title)
         == Some(TextTable(HeaderCells(first), [RowCells(second)]))
  {
    assert title + "\n" + first + "\n" + second == title + "\n" + (first + "\n" + second);
    NoBlankLineBetween(first, second);
    TwoLines(first, second);
    TwoLineTable(first + "\n" + second, first, second);
    SectionTable(title, first + "\n" + second, TextTable(HeaderCells(first), [RowCells(second)]));
  }

  /**
   * The worked example: a header line `A,B,C` and a data line `1,2, 1000` under a section title
   * give the header `["A", "B", "C"]` and the single row `["1", "2, 1000"]`; the comma before
   * the space is not a cut.
   */
  lemma {:induction false} SectionExample(title: string, a: string, b: string, c: string, x: string, y: string)
    requires a == "A" && b == "B" && c == "C" && x == "1" && y == "2, 1000"
    ensures TableFromText(title + "\n" + (a + "," + b + "," + c) + "\n" + (x + "," + y), title)
         == Some(TextTable([a, b, c], [[x, y]]))
  {
    var first, second := a + "," + b + "," + c, x + "," + y;
    ExampleHeader(a, b, c);
    ThousandsRow(x, y);
    assert IsStripped(first + "\n" + second) by {
      var block := first + "\n" + second;
      assert block[0] == a[0] && block[|block| - 1] == y[|y| - 1];
    }
    TwoLineSection(title, first, second);
  }
}
