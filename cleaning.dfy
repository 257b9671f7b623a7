/**
 * The per-file cleaning loop of the script: the shape gate, the all-missing skip,
 * dropping `Unnamed` columns and press-release rows, and storing each surviving
 * table under `<file name minus its last 4 characters>_Table<i+1>` in one
 * accumulating map.
 */
module Cleaning {
  import opened Wrappers
  import opened Strings
  import Discovery

  /** A DataFrame: column labels and rows of cells, `None` for a missing value (NaN). */
  datatype Frame = Frame(columns: seq<string>, rows: seq<seq<Option<string>>>)

  /** Every row has one cell per column, as in any DataFrame. */
  predicate WellFormed(f: Frame) {
    forall i :: 0 <= i < |f.rows| ==> |f.rows[i]| == |f.columns|
  }

  const UnnamedPrefix: string := "Unnamed"

  /** The bilingual press-release marker whose rows are dropped (Devanagari, then English). */
  const Marker: string :=
    "\U{092a}\U{0947}\U{094d}\U{0930}\U{0938} \U{092a}\U{094d}\U{0930}\U{0915}\U{093e}\U{0936}\U{0928}\U{0940} PRESS RELEASE"

  /** `columns.str.contains('^Unnamed')` for one label. */
  predicate IsUnnamed(name: string) {
    StartsWith(name, UnnamedPrefix)
  }

  /** `astype(str)` of one cell: a missing value prints as `nan`. */
  function CellText(c: Option<string>): string {
    match c
    case None => "nan"
    case Some(s) => s
  }

  /** Some cell of the row, as text, contains the marker. */
  predicate HasMarker(row: seq<Option<string>>) {
    exists j | 0 <= j < |row| :: Contains(CellText(row[j]), Marker)
  }

  /** `df.shape[1] > 1 and df.shape[0] > 1` */
  predicate PassesShapeGate(f: Frame) {
    |f.columns| > 1 && |f.rows| > 1
  }

  /** `pd.isna(df.values.flatten()).all()` */
  predicate AllMissing(f: Frame) {
    forall i, j :: 0 <= i < |f.rows| && 0 <= j < |f.rows[i]| ==> f.rows[i][j].None?
  }

  /** The positions at or after `from` whose element satisfies `keep`, in increasing order. */
  function KeptIndices<T>(xs: seq<T>, keep: T -> bool, from: nat): (ks: seq<nat>)
    requires from <= |xs|
    ensures forall k :: 0 <= k < |ks| ==> from <= ks[k] < |xs| && keep(xs[ks[k]])
    ensures forall j :: from <= j < |xs| && keep(xs[j]) ==> j in ks
    ensures forall k, l :: 0 <= k < l < |ks| ==> ks[k] < ks[l]
    decreases |xs| - from
  {
    if from == |xs| then []
    else (if keep(xs[from]) then [from] else []) + KeptIndices(xs, keep, from + 1)
  }

  /** The elements of `xs` at positions `ks`, in that order. */
  function Project<T>(xs: seq<T>, ks: seq<nat>): (r: seq<T>)
    requires forall k :: 0 <= k < |ks| ==> ks[k] < |xs|
    ensures |r| == |ks|
  {
    seq(|ks|, k requires 0 <= k < |ks| => xs[ks[k]])
  }

  function NamedColumns(f: Frame): (ks: seq<nat>)
    ensures forall k :: 0 <= k < |ks| ==> ks[k] < |f.columns|
  {
    KeptIndices(f.columns, (name: string) => !IsUnnamed(name), 0)
  }

  /** `df.loc[:, ~df.columns.str.contains('^Unnamed')]` */
  function DropUnnamed(f: Frame): (r: Frame)
    requires WellFormed(f)
    ensures WellFormed(r) && |r.rows| == |f.rows|
    ensures forall j :: 0 <= j < |r.columns| ==> !IsUnnamed(r.columns[j])
  {
    var ks := NamedColumns(f);
    Frame(Project(f.columns, ks), seq(|f.rows|, i requires 0 <= i < |f.rows| => Project(f.rows[i], ks)))
  }

  function UnmarkedRows(f: Frame): (rs: seq<nat>)
    ensures forall k :: 0 <= k < |rs| ==> rs[k] < |f.rows|
  {
    KeptIndices(f.rows, (row: seq<Option<string>>) => !HasMarker(row), 0)
  }

  /** `df[~df.apply(lambda row: row.astype(str).str.contains(marker).any(), axis=1)]` */
  function DropMarked(f: Frame): (r: Frame)
    requires WellFormed(f)
    ensures WellFormed(r) && r.columns == f.columns && |r.rows| <= |f.rows|
    ensures forall i :: 0 <= i < |r.rows| ==> !HasMarker(r.rows[i])
  {
    var rs := UnmarkedRows(f);
    assert |rs| <= |f.rows| by {
      KeptIndicesBound(f.rows, (row: seq<Option<string>>) => !HasMarker(row), 0);
    }
    Frame(f.columns, Project(f.rows, rs))
  }

  lemma {:induction false} KeptIndicesBound<T>(xs: seq<T>, keep: T -> bool, from: nat)
    requires from <= |xs|
    ensures |KeptIndices(xs, keep, from)| <= |xs| - from
    decreases |xs| - from
  {
    if from < |xs| {
      KeptIndicesBound(xs, keep, from + 1);
    }
  }

  /** Both filters, columns first and then rows (the row test sees only the kept columns). */
  function Clean(f: Frame): (r: Frame)
    requires WellFormed(f)
    ensures WellFormed(r)
    ensures forall j :: 0 <= j < |r.columns| ==> !IsUnnamed(r.columns[j])
    ensures forall i :: 0 <= i < |r.rows| ==> !HasMarker(r.rows[i])
    ensures |r.columns| <= |f.columns| && |r.rows| <= |f.rows|
  {
    assert |NamedColumns(f)| <= |f.columns| by {
      KeptIndicesBound(f.columns, (name: string) => !IsUnnamed(name), 0);
    }
    DropMarked(DropUnnamed(f))
  }

  /**
   * Which columns are kept, and in which order: exactly those whose label does not start with
   * `Unnamed`, in their original order.
   */
  lemma CleanKeepsNamedColumns(f: Frame)
    requires WellFormed(f)
    ensures var cs := NamedColumns(f);
      (forall k, l :: 0 <= k < l < |cs| ==> cs[k] < cs[l]) &&
      (forall j :: 0 <= j < |f.columns| ==> (j in cs <==> !IsUnnamed(f.columns[j]))) &&
      Clean(f).columns == Project(f.columns, cs)
  {
    var cs := NamedColumns(f);
    forall j | 0 <= j < |f.columns| && j in cs
      ensures !IsUnnamed(f.columns[j])
    {
      var k :| 0 <= k < |cs| && cs[k] == j;
    }
  }

  /**
   * Which rows are kept, and in which order: exactly those in which no kept cell holds the
   * marker, in their original order; every remaining cell is the input's cell at the kept row
   * and the kept column.
   */
  lemma CleanKeepsUnmarkedRows(f: Frame)
    requires WellFormed(f)
    ensures var cs := NamedColumns(f);
      var rs := UnmarkedRows(DropUnnamed(f));
      var r := Clean(f);
      (forall k, l :: 0 <= k < l < |rs| ==> rs[k] < rs[l]) &&
      (forall i :: 0 <= i < |f.rows| ==> (i in rs <==> !HasMarker(Project(f.rows[i], cs)))) &&
      |r.rows| == |rs| &&
      forall i, k :: 0 <= i < |rs| && 0 <= k < |cs| ==> r.rows[i][k] == f.rows[rs[i]][cs[k]]
  {
    var cs := NamedColumns(f);
    var g := DropUnnamed(f);
    var rs := UnmarkedRows(g);
    forall i | 0 <= i < |f.rows|
      ensures g.rows[i] == Project(f.rows[i], cs)
    {
    }
    forall i | 0 <= i < |f.rows| && i in rs
      ensures !HasMarker(Project(f.rows[i], cs))
    {
      var k :| 0 <= k < |rs| && rs[k] == i;
    }
  }

  /** The table a file contributes at this position, if it survives the gate and the skip. */
  function Admit(f: Frame): (r: Option<Frame>)
    requires WellFormed(f)
    ensures r.Some? <==> PassesShapeGate(f) && !AllMissing(f)
    ensures r.Some? ==> r.value == Clean(f)
  {
    if PassesShapeGate(f) && !AllMissing(f) then Some(Clean(f)) else None
  }

  // ---------------------------------------------------------------------------
  // Table names
  // ---------------------------------------------------------------------------

  const TableInfix: string := "_Table"

  /** `os.path.basename(path)[:-4]`: the file name without its last four characters. */
  function Base(file: string): (r: string)
    ensures |file| >= 4 ==> r + file[|file| - 4..] == file
    ensures |file| < 4 ==> r == []
  {
    if |file| >= 4 then file[..|file| - 4] else []
  }

  /** `f"{base}_Table{i+1}"`: the base name, `_Table`, then the 1-based position in decimal. */
  function TableName(file: string, i: nat): (r: string)
    ensures StartsWith(r, Base(file) + TableInfix)
    ensures r[|Base(file) + TableInfix|..] == Decimal(i + 1)
    ensures DecimalValue(r[|Base(file) + TableInfix|..]) == i + 1
  {
    var prefix := Base(file) + TableInfix;
    var r := prefix + Decimal(i + 1);
    assert r[|prefix|..] == Decimal(i + 1);
    DecimalRoundTrip(i + 1);
    r
  }

  /** Past the base name, a table name holds an underscore only where `_Table` starts. */
  lemma UnderscoreAfterBase(file: string, i: nat, k: nat)
    requires |Base(file)| <= k < |TableName(file, i)| && TableName(file, i)[k] == '_'
    ensures k == |Base(file)|
  {
    var r, p := TableName(file, i), Base(file) + TableInfix;
    assert r[..|p|] == p;
  }

  /**
   * A table name determines its base name and its position: equal names come from the same
   * base and the same position, whatever the file names look like.
   */
  lemma TableNameInjective(file: string, i: nat, file': string, j: nat)
    requires TableName(file, i) == TableName(file', j)
    ensures Base(file) == Base(file') && i == j
  {
    var r := TableName(file, i);
    var b, b' := Base(file), Base(file');
    var p, p' := b + TableInfix, b' + TableInfix;
    assert r[..|p|] == p && r[..|p'|] == p';
    if |b| < |b'| {
      assert r[|b'|] == p'[|b'|] == '_';
      UnderscoreAfterBase(file, i, |b'|);
    } else if |b'| < |b| {
      assert r[|b|] == p[|b|] == '_';
      UnderscoreAfterBase(file', j, |b|);
    }
    assert b == r[..|b|] == b';
    DecimalInjective(i + 1, j + 1);
  }

  /** Two positions in one file never share a name. */
  lemma TableNamesDistinct(file: string, i: nat, j: nat)
    requires i != j
    ensures TableName(file, i) != TableName(file, j)
  {
    if TableName(file, i) == TableName(file, j) {
      TableNameInjective(file, i, file, j);
    }
  }

  /** Two `.pdf` names with the same base name are the same name. */
  lemma PdfBaseInjective(file: string, file': string)
    requires Discovery.IsPdf(file) && Discovery.IsPdf(file') && Base(file) == Base(file')
    ensures file == file'
  {
    assert file == Base(file) + Discovery.PdfSuffix;
    assert file' == Base(file') + Discovery.PdfSuffix;
  }

  // ---------------------------------------------------------------------------
  // The accumulating map over all files
  // ---------------------------------------------------------------------------

  /** One input file: its name and the tables extracted from it, in extraction order. */
  datatype PdfTables = PdfTables(file: string, tables: seq<Frame>)

  predicate AllWellFormed(tables: seq<Frame>) {
    forall t :: 0 <= t < |tables| ==> WellFormed(tables[t])
  }

  predicate InputsWellFormed(inputs: seq<PdfTables>) {
    forall a :: 0 <= a < |inputs| ==> AllWellFormed(inputs[a].tables)
  }

  /** An assignment `all_dfs[name] = df`, or nothing for a table the gate rejects. */
  type Entry = Option<(string, Frame)>

  /** The assignments the inner loop performs for one file, one per table, in order. */
  function Entries(file: string, tables: seq<Frame>): (es: seq<Entry>)
    requires AllWellFormed(tables)
    ensures |es| == |tables|
    ensures forall t :: 0 <= t < |tables| ==> (es[t].Some? <==> Admit(tables[t]).Some?)
    ensures forall t :: 0 <= t < |tables| && es[t].Some? ==>
              es[t].value == (TableName(file, t), Admit(tables[t]).value)
  {
    seq(|tables|, t requires 0 <= t < |tables| =>
      match Admit(tables[t])
      case None => None
      case Some(c) => Some((TableName(file, t), c)))
  }

  /** The dictionary after performing the assignments in order. */
  function Store(m: map<string, Frame>, es: seq<Entry>): map<string, Frame>
  {
    if es == [] then m
    else
      var prev := Store(m, es[..|es| - 1]);
      match es[|es| - 1]
      case None => prev
      case Some(e) => prev[e.0 := e.1]
  }

  /** The dictionary after all files have been processed, in order. */
  function Collected(inputs: seq<PdfTables>): map<string, Frame>
    requires InputsWellFormed(inputs)
  {
    if inputs == [] then map[]
    else
      var last := inputs[|inputs| - 1];
      Store(Collected(inputs[..|inputs| - 1]), Entries(last.file, last.tables))
  }

  /** The script's main loop over the sorted file list, filling `all_dfs`. */
  method CollectTables(inputs: seq<PdfTables>) returns (all: map<string, Frame>)
    requires InputsWellFormed(inputs)
    ensures all == Collected(inputs)
  {
    all := map[];
    var a := 0;
    while a < |inputs|
      invariant 0 <= a <= |inputs|
      invariant all == Collected(inputs[..a])
    {
      var file := inputs[a].file;
      var extracted := inputs[a].tables;
      ghost var before := all;
      ghost var es := Entries(file, extracted);
      var i := 0;
      while i < |extracted|
        invariant 0 <= i <= |extracted|
        invariant all == Store(before, es[..i])
      {
        assert es[..i + 1][..i] == es[..i];
        var df := extracted[i];
        if PassesShapeGate(df) && !AllMissing(df) {
          df := DropUnnamed(df);
          df := DropMarked(df);
          all := all[TableName(file, i) := df];
        }
        i := i + 1;
      }
      assert es[..|extracted|] == es;
      assert inputs[..a + 1][..a] == inputs[..a];
      a := a + 1;
    }
    assert inputs[..|inputs|] == inputs;
  }

  // ---------------------------------------------------------------------------
  // Properties of the accumulated dictionary
  // ---------------------------------------------------------------------------

  /** Assignments never remove a key. */
  lemma {:induction false} StoreGrows(m: map<string, Frame>, es: seq<Entry>)
    ensures m.Keys <= Store(m, es).Keys
  {
    if es != [] {
      StoreGrows(m, es[..|es| - 1]);
    }
  }

  /** Every key of the result was already there, unchanged, or was assigned its value by an entry. */
  lemma {:induction false} StoreOnly(m: map<string, Frame>, es: seq<Entry>, key: string)
    requires key in Store(m, es)
    ensures (key in m && Store(m, es)[key] == m[key]) ||
            (exists t :: 0 <= t < |es| && es[t] == Some((key, Store(m, es)[key])))
  {
    if es != [] {
      var init := es[..|es| - 1];
      var last := es[|es| - 1];
      if last.Some? && last.value.0 == key {
        assert es[|es| - 1] == Some((key, Store(m, es)[key]));
      } else {
        StoreOnly(m, init, key);
        if !(key in m && Store(m, init)[key] == m[key]) {
          var t :| 0 <= t < |init| && init[t] == Some((key, Store(m, init)[key]));
          assert es[t] == init[t];
        }
      }
    }
  }

  /** A key holds the value of its last assignment. */
  lemma {:induction false} StoreLastWins(m: map<string, Frame>, es: seq<Entry>, t: nat)
    requires t < |es| && es[t].Some?
    requires forall u :: t < u < |es| && es[u].Some? ==> es[u].value.0 != es[t].value.0
    ensures es[t].value.0 in Store(m, es) && Store(m, es)[es[t].value.0] == es[t].value.1
  {
    var init := es[..|es| - 1];
    if t < |es| - 1 {
      assert forall u :: t < u < |init| ==> init[u] == es[u];
      StoreLastWins(m, init, t);
      assert init[t] == es[t];
    }
  }

  /** An assignment in a file's entry list is an admitted table stored under its own name. */
  lemma EntryAdmitted(file: string, tables: seq<Frame>, t: nat, key: string, v: Frame)
    requires AllWellFormed(tables) && t < |tables|
    requires Entries(file, tables)[t] == Some((key, v))
    ensures key == TableName(file, t) && Admit(tables[t]) == Some(v)
  {
  }

  /** `f` passes the gate and the skip, and cleans to `v`. */
  predicate AdmitsTo(f: Frame, v: Frame) {
    WellFormed(f) && Admit(f) == Some(v)
  }

  /** Some file's table at some position passed the gate, cleans to `v`, and is named `key`. */
  predicate AdmittedAs(inputs: seq<PdfTables>, key: string, v: Frame) {
    exists a, t :: 0 <= a < |inputs| && 0 <= t < |inputs[a].tables| &&
      key == TableName(inputs[a].file, t) && AdmitsTo(inputs[a].tables[t], v)
  }

  /** A table admitted from the earlier files is still admitted from all of them. */
  lemma AdmittedAsExtends(inputs: seq<PdfTables>, key: string, v: Frame)
    requires inputs != [] && AdmittedAs(inputs[..|inputs| - 1], key, v)
    ensures AdmittedAs(inputs, key, v)
  {
    var prefix := inputs[..|inputs| - 1];
    var a, t :| 0 <= a < |prefix| && 0 <= t < |prefix[a].tables| &&
      key == TableName(prefix[a].file, t) && AdmitsTo(prefix[a].tables[t], v);
    assert inputs[a] == prefix[a];
  }

  /** An assignment made for the last file names a table of that file that was admitted. */
  lemma AdmittedAsLast(inputs: seq<PdfTables>, t: nat, key: string, v: Frame)
    requires InputsWellFormed(inputs) && inputs != []
    requires t < |inputs[|inputs| - 1].tables|
    requires Entries(inputs[|inputs| - 1].file, inputs[|inputs| - 1].tables)[t] == Some((key, v))
    ensures AdmittedAs(inputs, key, v)
  {
    var a := |inputs| - 1;
    EntryAdmitted(inputs[a].file, inputs[a].tables, t, key, v);
  }

  /**
   * A table enters the dictionary only through the gate: every stored entry is the cleaned form
   * of a table that passed the shape gate and was not all missing, stored under that table's name.
   */
  lemma {:induction false} CollectedOnlyAdmitted(inputs: seq<PdfTables>, key: string)
    requires InputsWellFormed(inputs)
    requires key in Collected(inputs)
    ensures AdmittedAs(inputs, key, Collected(inputs)[key])
  {
    var prefix := inputs[..|inputs| - 1];
    var last := inputs[|inputs| - 1];
    var earlier := Collected(prefix);
    var es := Entries(last.file, last.tables);
    var v := Collected(inputs)[key];
    StoreOnly(earlier, es, key);
    if key in earlier && v == earlier[key] {
      CollectedOnlyAdmitted(prefix, key);
      AdmittedAsExtends(inputs, key, v);
    } else {
      var t :| 0 <= t < |es| && es[t] == Some((key, v));
      AdmittedAsLast(inputs, t, key, v);
    }
  }

  /** So every stored table is clean: no `Unnamed` column and no row holding the marker. */
  lemma CollectedAreClean(inputs: seq<PdfTables>, key: string)
    requires InputsWellFormed(inputs)
    requires key in Collected(inputs)
    ensures var df := Collected(inputs)[key];
      WellFormed(df) &&
      (forall j :: 0 <= j < |df.columns| ==> !IsUnnamed(df.columns[j])) &&
      (forall i :: 0 <= i < |df.rows| ==> !HasMarker(df.rows[i]))
  {
    CollectedOnlyAdmitted(inputs, key);
  }

  /**
   * The last file's tables win: each table of the last file that passes the gate is in the
   * dictionary, cleaned, under its name, even when an earlier file produced the same name.
   */
  lemma LastFileWins(inputs: seq<PdfTables>, t: nat)
    requires InputsWellFormed(inputs) && |inputs| > 0
    requires t < |inputs[|inputs| - 1].tables|
    requires Admit(inputs[|inputs| - 1].tables[t]).Some?
    ensures var last := inputs[|inputs| - 1];
      TableName(last.file, t) in Collected(inputs) &&
      Collected(inputs)[TableName(last.file, t)] == Clean(last.tables[t])
  {
    var last := inputs[|inputs| - 1];
    var es := Entries(last.file, last.tables);
    forall u | t < u < |es| && es[u].Some?
      ensures es[u].value.0 != es[t].value.0
    {
      TableNamesDistinct(last.file, u, t);
    }
    StoreLastWins(Collected(inputs[..|inputs| - 1]), es, t);
  }

  /** Every table of every file that passes the gate leaves its name in the dictionary. */
  lemma {:induction false} CollectedHasAdmitted(inputs: seq<PdfTables>, a: nat, t: nat)
    requires InputsWellFormed(inputs)
    requires a < |inputs| && t < |inputs[a].tables|
    requires Admit(inputs[a].tables[t]).Some?
    ensures TableName(inputs[a].file, t) in Collected(inputs)
  {
    var prefix := inputs[..|inputs| - 1];
    var last := inputs[|inputs| - 1];
    if a == |inputs| - 1 {
      LastFileWins(inputs, t);
    } else {
      assert prefix[a] == inputs[a];
      CollectedHasAdmitted(prefix, a, t);
      StoreGrows(Collected(prefix), Entries(last.file, last.tables));
    }
  }

  /** Assignments to other names leave a name as it was. */
  lemma {:induction false} StoreUnassigned(m: map<string, Frame>, es: seq<Entry>, key: string)
    requires forall t :: 0 <= t < |es| && es[t].Some? ==> es[t].value.0 != key
    ensures key in Store(m, es) <==> key in m
    ensures key in m ==> Store(m, es)[key] == m[key]
  {
    if es != [] {
      var init := es[..|es| - 1];
      assert forall t :: 0 <= t < |init| ==> init[t] == es[t];
      StoreUnassigned(m, init, key);
    }
  }

  /**
   * After all files, an admitted table is stored, cleaned, under its name, unless an admitted
   * table of a later file has the same name (later positions of its own file never do).
   */
  lemma {:induction false} StoredUnlessOverwritten(inputs: seq<PdfTables>, a: nat, t: nat)
    requires InputsWellFormed(inputs)
    requires a < |inputs| && t < |inputs[a].tables|
    requires Admit(inputs[a].tables[t]).Some?
    requires forall b, u :: (a < b < |inputs| && 0 <= u < |inputs[b].tables| &&
               Admit(inputs[b].tables[u]).Some?) ==> TableName(inputs[b].file, u) != TableName(inputs[a].file, t)
    ensures var name := TableName(inputs[a].file, t);
      name in Collected(inputs) && Collected(inputs)[name] == Clean(inputs[a].tables[t])
  {
    if a == |inputs| - 1 {
      LastFileWins(inputs, t);
    } else {
      var prefix := inputs[..|inputs| - 1];
      var last := inputs[|inputs| - 1];
      var name := TableName(inputs[a].file, t);
      assert forall b :: 0 <= b < |prefix| ==> prefix[b] == inputs[b];
      StoredUnlessOverwritten(prefix, a, t);
      var es := Entries(last.file, last.tables);
      forall u | 0 <= u < |es| && es[u].Some?
        ensures es[u].value.0 != name
      {
        assert es[u].value.0 == TableName(inputs[|inputs| - 1].file, u);
      }
      StoreUnassigned(Collected(prefix), es, name);
    }
  }

  /**
   * With the distinct `.pdf` names of a directory listing, no name is ever overwritten: every
   * admitted table of every file ends up stored, cleaned, under its own name.
   */
  lemma DistinctFilesAllStored(inputs: seq<PdfTables>, a: nat, t: nat)
    requires InputsWellFormed(inputs)
    requires forall b :: 0 <= b < |inputs| ==> Discovery.IsPdf(inputs[b].file)
    requires forall b, c :: 0 <= b < c < |inputs| ==> inputs[b].file != inputs[c].file
    requires a < |inputs| && t < |inputs[a].tables|
    requires Admit(inputs[a].tables[t]).Some?
    ensures var name := TableName(inputs[a].file, t);
      name in Collected(inputs) && Collected(inputs)[name] == Clean(inputs[a].tables[t])
  {
    forall b, u | a < b < |inputs| && 0 <= u < |inputs[b].tables| && Admit(inputs[b].tables[u]).Some?
      ensures TableName(inputs[b].file, u) != TableName(inputs[a].file, t)
    {
      if TableName(inputs[b].file, u) == TableName(inputs[a].file, t) {
        TableNameInjective(inputs[b].file, u, inputs[a].file, t);
        PdfBaseInjective(inputs[b].file, inputs[a].file);
      }
    }
    StoredUnlessOverwritten(inputs, a, t);
  }
}
