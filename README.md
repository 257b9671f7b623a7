# OMO table extractor — a Dafny model

`rethink.py` collects the tables of every `.pdf` file in a `data` folder and writes them into one
Excel workbook, one sheet per table. This project models its logic:

- **Discovery** (`discovery.dfy`): the file list is the `.pdf` names of the directory listing,
  sorted by Python's string order.
- **Fallback parsing** (`strings.dfy`, `fallback.dfy`): when the structured extractor yields
  nothing, the file's text is searched for the two section titles
  `A. II. DETAILS OF OMO PURCHASE ISSUE` and `B. II. DETAILS OF OMO SALE ISSUE`. The block after
  a title runs up to the first blank line, or to the end of the text. Its first line is split at
  every comma into the header. Each later line is split only at a comma that is not followed by
  whitespace (`re.split(r',(?!\s)', line)`). Every cell is stripped of Python whitespace.
- **Extraction** (`extraction.dfy`): the structured tables are kept when there are any.
  Otherwise the fallback sections (purchase first, then sale) are turned into frames.
- **Cleaning and collection** (`cleaning.dfy`): a table is kept only if it has more than one
  column and more than one row and is not entirely missing values. Columns whose name starts
  with `Unnamed` are dropped. Rows in which some cell's text contains the Devanagari/English
  press-release marker are dropped. The table is stored under `<file name without .pdf>_Table<i+1>`
  in one dictionary, and a later file overwrites an earlier entry of the same name.
- **Column widths** (`widths.dfy`): each worksheet column gets width "longest string value + 2".
  Numbers and empty cells never change the maximum, because `len` raises on them and the bare
  `except` swallows the error.

Python's `str` is `seq<char>`. A pandas frame is a column list plus rows of optional cells, where
`None` is a missing value that prints as `nan`. Failures that abort or are swallowed become
`Option` results.

A row line such as `1,2, 1000` gives the two cells `1` and `2, 1000`, not three: the regular
expression in `rethink.py:24` does not cut at a comma followed by whitespace.
`Fallback.ThousandsRow` and `Fallback.SectionExample` state this.

## Model

| member | source | states |
|---|---|---|
| Strings.LeadingSpace | rethink.py:16 | counts exactly the whitespace run at the start of the string |
| Strings.TrailingSpace | rethink.py:16 | counts exactly the whitespace run at the end of the string |
| Strings.Strip | rethink.py:16 | the result has no leading or trailing Python whitespace and is no longer than the input |
| Strings.StripRemovesOnlySpace | rethink.py:16 | `strip()` returns a contiguous window of the input and everything cut off on either side is whitespace |
| Strings.StripAllSpace | rethink.py:16 | a string of whitespace only strips to the empty string |
| Strings.StripStripped | rethink.py:21 | stripping an already stripped string changes nothing |
| Strings.StripAll | rethink.py:21 | the list comprehension keeps the number of cells, and cell `k` of the result is cell `k` of the input stripped |
| Strings.StripAllStripped | rethink.py:24 | stripping already stripped cells changes nothing |
| Strings.FindFrom | rethink.py:11 | returns the leftmost occurrence at or after the start position, `None` exactly when there is none |
| Strings.Find | rethink.py:11 | `re.search` of a literal finds the leftmost match, and `None` exactly when the text has no occurrence |
| Strings.Split | rethink.py:16 | `split(sep)` yields one more part than there are separators, no part contains the separator, and joining the parts with it gives back the input |
| Strings.SplitNoSep | rethink.py:16 | a string without the separator splits into itself alone |
| Strings.SplitPrefix | rethink.py:16 | splitting `a + sep + b` is the split of `a` followed by the split of `b` |
| Strings.SplitJoin | rethink.py:16 | splitting the join of separator-free parts gives back the parts |
| Strings.SplitRow | rethink.py:24 | the pieces number one more than the cut commas, rejoin to the line, contain no cut comma, and every later piece does not start with whitespace |
| Strings.SplitRowWhole | rethink.py:24 | a line without a cut comma is one piece |
| Strings.SplitRowPrefix | rethink.py:24 | a cut comma splits the line into the pieces of each side |
| Strings.SplitRowJoin | rethink.py:24 | re-splitting pieces joined at cut commas returns the pieces |
| Strings.Decimal | rethink.py:93 | `str(n)` is a non-empty run of digits that starts with `0` only when `n` is 0 |
| Strings.DecimalRoundTrip | rethink.py:93 | reading back the decimal text of `n` gives `n` |
| Strings.DecimalInjective | rethink.py:93 | distinct numbers have distinct decimal texts |
| Fallback.Block | rethink.py:11-15 | `None` exactly when `title + "\n"` does not occur; otherwise the block starts right after the first occurrence and ends at the first blank line at or after its start, or at the end of the text |
| Fallback.Lines | rethink.py:16-19 | the stripped block always splits into at least one line, so the `if not lines` branch is never taken |
| Fallback.HeaderCells | rethink.py:21 | one stripped name per comma plus one |
| Fallback.RowCells | rethink.py:24 | one stripped cell per cut comma plus one |
| Fallback.HeaderCellsPieces | rethink.py:21 | header name `k` is piece `k` of the line split at every comma, stripped |
| Fallback.RowCellsPieces | rethink.py:24 | row cell `k` is piece `k` of the line split at the commas not followed by whitespace, stripped |
| Fallback.HeaderCellsJoin | rethink.py:21 | any number of stripped comma-free names joined by commas come back as exactly those names, in order |
| Fallback.RowCellsJoin | rethink.py:24 | any number of stripped cells without a cut comma, each after the first not starting with whitespace, joined by commas come back as exactly those cells, in order |
| Fallback.TableOfLines | rethink.py:21-25 | the header is the first line's stripped names, one per comma plus one, and row `k` is the row split of line `k + 1`, with one row per further line |
| Fallback.DataRows | rethink.py:23-25 | one row per data line, in order, row `k` being the row cells of line `k` |
| Fallback.TableOfBlock | rethink.py:16-25 | the header is the header cells of the block's first line, and row `k` is the row cells of line `k + 1`, one row per later line |
| Fallback.TableFromText | rethink.py:9-27 | `None` exactly when the text has no `title + "\n"`; otherwise the table of the block under the title |
| Fallback.ParseLines | rethink.py:21-25 | the loop over the data lines builds exactly the table of the lines |
| Fallback.ExtractTableFromText | rethink.py:9-27 | `None` exactly when the title line does not occur, and otherwise the table of the block under it |
| Fallback.Assemble | rethink.py:49-54 | at most two tables, one per section found, purchase before sale |
| Fallback.AppendFound | rethink.py:49-53 | the appended list is the found tables in order, purchase before sale |
| Fallback.FindSections | rethink.py:46-54 | the list holds each found section's table, in title order |
| Fallback.FallbackTables | rethink.py:46-54 | the fallback result holds the purchase and sale sections that occur, in that order |
| Fallback.BlankBlockTable | rethink.py:16-21 | a block of whitespace only yields a single empty header name and no rows |
| Fallback.OneLineNoRows | rethink.py:16-25 | a block with one non-blank line yields a header and no data rows |
| Fallback.BlockOfSection | rethink.py:11-15 | a title line followed by a body without a blank line captures the whole body |
| Fallback.TwoCellRow | rethink.py:24 | two stripped cells without a cut comma, the second not starting with whitespace, joined by a comma give back exactly those two cells |
| Fallback.ThousandsRow | rethink.py:24 | the row line `1,2, 1000` gives the two cells `1` and `2, 1000` |
| Fallback.ThreeNameHeader | rethink.py:21 | three stripped comma-free names joined by commas give back those three names |
| Fallback.ExampleHeader | rethink.py:21 | the header line `A,B,C` gives the names `A`, `B`, `C` |
| Fallback.NoBlankLineBetween | rethink.py:11 | two non-empty lines joined by one newline contain no blank line |
| Fallback.TwoLines | rethink.py:16 | a stripped two-line block splits into its two lines |
| Fallback.TwoLineTable | rethink.py:16-25 | a two-line block yields the first line's header and the second line's single row |
| Fallback.SectionTable | rethink.py:9-27 | a title followed by a body without a blank line yields the body's table |
| Fallback.TwoLineSection | rethink.py:9-27 | a title with a header line and one data line yields that header and that one row |
| Fallback.SectionExample | rethink.py:9-27 | under any title, the section `A,B,C` / `1,2, 1000` parses to the header `A`, `B`, `C` and the single row `1`, `2, 1000` |
| Extraction.ToFrame | rethink.py:27 | a frame exists exactly when every row has one cell per header name, and then it has the header as columns and the parsed cells in place |
| Extraction.FramesOf | rethink.py:46-54 | all sections become frames, in order, exactly when each one can |
| Extraction.ExtractTablesFromPdf | rethink.py:29-54 | non-empty structured tables are returned as they are; otherwise the result is the fallback's purchase and sale frames |
| Extraction.ShortSectionDropped | rethink.py:76 | a fallback section with fewer than two data rows never passes the shape gate |
| Extraction.BlankSectionDropped | rethink.py:16-27 | a section of blank lines becomes a one-column frame with no rows, which the shape gate drops |
| Cleaning.KeptIndices | rethink.py:88-91 | the kept positions are exactly those from the start that satisfy the keep test, in increasing order |
| Cleaning.KeptIndicesBound | rethink.py:88-91 | no more positions are kept than there are |
| Cleaning.DropUnnamed | rethink.py:88 | no remaining column name starts with `Unnamed`, and every row is kept |
| Cleaning.DropMarked | rethink.py:91 | no remaining row contains the marker, the columns are unchanged and no row is added |
| Cleaning.Clean | rethink.py:88-91 | the cleaned frame is rectangular, has no `Unnamed` column and no marker row, and is no larger than the input |
| Cleaning.CleanKeepsNamedColumns | rethink.py:88 | the cleaned frame keeps exactly the columns whose name does not start with `Unnamed`, in their original order |
| Cleaning.CleanKeepsUnmarkedRows | rethink.py:91 | the cleaned frame keeps exactly the rows with no marker in a kept cell, in their original order, each cell taken from the input at its row and column |
| Cleaning.Admit | rethink.py:76-91 | a table is stored exactly when it has more than one column and more than one row and not all its values are missing; what is stored is its cleaned frame |
| Cleaning.Base | rethink.py:93 | the base name plus the last four characters is the file name (empty for names shorter than four) |
| Cleaning.TableName | rethink.py:93 | the name is the base name, `_Table`, and the decimal text of `i + 1` |
| Cleaning.TableNameInjective | rethink.py:93 | equal table names come from the same base name and the same table position |
| Cleaning.PdfBaseInjective | rethink.py:93 | two `.pdf` names with the same base name are the same name |
| Cleaning.TableNamesDistinct | rethink.py:93 | different table positions of one file get different names |
| Cleaning.Entries | rethink.py:75-94 | one assignment per table, made exactly for the tables the gate admits, storing the cleaned table under its own name |
| Cleaning.CollectTables | rethink.py:65-94 | the nested loops build exactly the dictionary the collection rule specifies |
| Cleaning.StoreGrows | rethink.py:94 | assignments never remove a name |
| Cleaning.StoreOnly | rethink.py:94 | every name after the assignments holds its earlier value or was assigned that value |
| Cleaning.StoreLastWins | rethink.py:94 | a name holds the value of its last assignment |
| Cleaning.StoreUnassigned | rethink.py:94 | assignments to other names leave a name present or absent, and its value, as they were |
| Cleaning.EntryAdmitted | rethink.py:75-94 | an assignment for a file is an admitted table stored under that table's name |
| Cleaning.AdmittedAsExtends | rethink.py:68 | a table admitted from the earlier files stays admitted once more files follow |
| Cleaning.AdmittedAsLast | rethink.py:75-94 | an assignment made for the last file names an admitted table of that file |
| Cleaning.CollectedOnlyAdmitted | rethink.py:68-94 | every stored table is the cleaned form of some admitted table, stored under that table's name |
| Cleaning.CollectedAreClean | rethink.py:88-94 | every stored table has no `Unnamed` column and no marker row |
| Cleaning.LastFileWins | rethink.py:94 | each admitted table of the last file is stored, cleaned, under its name, even when an earlier file produced the same name |
| Cleaning.StoredUnlessOverwritten | rethink.py:68-94 | an admitted table of any file is stored, cleaned, under its name unless an admitted table of a later file has the same name |
| Cleaning.DistinctFilesAllStored | rethink.py:60-94 | with distinct `.pdf` file names, every admitted table of every file is stored, cleaned, under its own name |
| Cleaning.CollectedHasAdmitted | rethink.py:68-94 | every admitted table's name is present at the end |
| Widths.MaxStringLength | rethink.py:114-121 | bounds every string value's length and equals one of them, or is 0 when there are none |
| Widths.ColumnWidth | rethink.py:113-123 | the width is the longest string value's length plus two |
| Widths.NonStringCellIgnored | rethink.py:117-121 | removing a number or an empty cell does not change the width |
| Discovery.PdfNames | rethink.py:60 | a name is kept exactly when it ends in `.pdf`, each kept as many times as it is listed |
| Discovery.LexLeTotal | rethink.py:60 | any two names are ordered one way or the other |
| Discovery.LexLeTransitive | rethink.py:60 | the string order is transitive |
| Discovery.LexLeAntisymmetric | rethink.py:60 | names ordered both ways are equal |
| Discovery.LexLeReflexive | rethink.py:60 | every name is ordered before itself |
| Discovery.Insert | rethink.py:60 | inserting into a sorted list gives a sorted list with that one name added |
| Discovery.BoundedByMembers | rethink.py:60 | a lower bound of a list and of a name bounds every element of a list holding exactly those |
| Discovery.HeadIsLeast | rethink.py:60 | the head of a sorted list comes before every element of it |
| Discovery.Sort | rethink.py:60 | `sorted` returns the same names in non-decreasing order |
| Discovery.PdfFiles | rethink.py:60 | the processed files are exactly the listed `.pdf` names, each as often as listed, in sorted order |
| Discovery.SortedUnique | rethink.py:60 | two sorted lists of the same names are equal |
| Discovery.ListingOrderIrrelevant | rethink.py:60 | the processing order does not depend on the order of the directory listing |

## Left out

- `tabula.read_pdf` (rethink.py:31-37): a foreign library. Its outcome is the `structured` parameter of `Extraction.ExtractTablesFromPdf`, with `None` for the exception that is printed and swallowed. Its frames are taken to be rectangular.
- Reading the file as UTF-8 with a Latin-1 retry (rethink.py:39-44): I/O and decoding. The decoded text is a parameter, and the newline translation of text mode is not modelled.
- `os.getcwd`, `os.path.join`, `os.makedirs`, `os.listdir` (rethink.py:57-60): file-system calls. The listing is a parameter of `Discovery.PdfFiles`. `Cleaning.TableName` takes the listed file name, which is what `os.path.basename` returns for the joined path.
- The timestamped workbook name (rethink.py:62-63): a clock reading.
- All `print` calls (rethink.py:36, 70, 78, 81, 96, 104, 106): console output only.
- The loop over files that calls the extractor (rethink.py:68-73): `Cleaning.CollectTables` takes each file's extracted tables in processing order, so the extractor's I/O stays outside the model.
- Writing sheets with `pd.ExcelWriter` and `to_excel` (rethink.py:98-104), including the skip of empty frames: a foreign library and I/O.
- Loading the workbook, setting alignments and saving (rethink.py:109-112, 115, 124-128): foreign library and I/O. Only the width computation is modelled. The crash at rethink.py:109 when no workbook was written is not modelled.
- Extraction.ToFrame: pandas also accepts rows shorter than the header when the longest row matches it, padding the short rows with missing values. The model reports every non-rectangular section as a constructor failure.
- Fallback.Block: the title is a regular expression in the source. The model treats it as the literal text its escapes denote, which is all the two titles need.
- Cleaning.DropMarked: `row.astype(str)` is modelled for string cells and missing cells (`nan`). Other value types of structured frames are not modelled.
- Sheet-name limits of Excel (31 characters, forbidden characters): not modelled; the script does not check them and leaves them to the writer library.
- Cleaning.Store, Cleaning.Collected, Cleaning.CollectTables: `all_dfs` is modelled as a `map`, which has no order. The insertion order of the Python dict, which is the sheet order at rethink.py:101 (an overwritten key keeps its first position), is not modelled.
