/** The case-file records read from the rows of the portal's search results
    table. A row is the list of its cells' texts; the table is its list of
    rows, the header first. */
module SearchResults {
  import opened Wrappers
  import opened Strings

  /** One case file as listed in the search results (esas_no is the case
      number, mahkeme the court, yargi_turu / yargi_birimi the jurisdiction
      type and unit, durum the status, acilis_tarihi the opening date,
      taraflar the parties summary). */
  datatype UyapFile = UyapFile(
    id: string,
    esasNo: string,
    mahkeme: string,
    yargiTuru: string,
    yargiBirimi: string,
    durum: string,
    acilisTarihi: string,
    taraflar: string,
    davali: string,
    davaci: string,
    subject: string,
    lastAction: string,
    nextHearing: string)

  type Row = seq<string>

  /** Rows with fewer cells than this are dropped. */
  const MinCells: nat := 4

  /** The identifier given to the file read from data row `index`, stamped
      with the clock reading (whole seconds) taken for that row. */
  function FileId(index: nat, stamp: nat): string {
    "uyap_file_" + Decimal(index) + "_" + Decimal(stamp)
  }

  /** Each cell's text, trimmed (cell.text.strip() for every cell of the row). */
  function StrippedCells(cells: Row): (r: Row)
    ensures |r| == |cells|
  {
    if cells == [] then [] else [Strip(cells[0])] + StrippedCells(cells[1..])
  }

  lemma {:induction false} StrippedCellsAt(cells: Row, k: nat)
    requires k < |cells|
    ensures StrippedCells(cells)[k] == Strip(cells[k])
    decreases k
  {
    if k > 0 {
      StrippedCellsAt(cells[1..], k - 1);
    }
  }

  /** Trimmed cell k, or "" when the row has no such cell. */
  function OptionalCell(trimmed: Row, k: nat): string {
    if k < |trimmed| then trimmed[k] else ""
  }

  /** The file read from one row of at least four cells. */
  function RowToFile(cells: Row, id: string): UyapFile
    requires |cells| >= MinCells
  {
    var t := StrippedCells(cells);
    UyapFile(
      id := id,
      esasNo := t[0],
      mahkeme := t[1],
      yargiTuru := t[2],
      yargiBirimi := t[1],
      durum := t[3],
      acilisTarihi := OptionalCell(t, 4),
      taraflar := OptionalCell(t, 5),
      davali := "", davaci := "", subject := "", lastAction := "", nextHearing := "")
  }

  /** The table without its header row (Python's rows[1:]). */
  function DataRows(table: seq<Row>): seq<Row> {
    if table == [] then [] else table[1..]
  }

  /** The files read from data row `index`: one if it is wide enough, none otherwise. */
  function RowFiles(cells: Row, index: nat, clock: nat -> nat): seq<UyapFile> {
    if |cells| >= MinCells then [RowToFile(cells, FileId(index, clock(index)))] else []
  }

  /** The files read from the data rows at position `start` and after, each
      id stamped with the row's own position. */
  function ParsedFrom(rows: seq<Row>, start: nat, clock: nat -> nat): seq<UyapFile>
    decreases |rows| - start
  {
    if start >= |rows| then [] else RowFiles(rows[start], start, clock) + ParsedFrom(rows, start + 1, clock)
  }

  /** The data rows at position `start` and after that are kept, each with
      its position. */
  function Kept(rows: seq<Row>, start: nat): (r: seq<(nat, Row)>)
    ensures forall k :: 0 <= k < |r| ==> |r[k].1| >= MinCells
    decreases |rows| - start
  {
    if start >= |rows| then []
    else
      var rest := Kept(rows, start + 1);
      if |rows[start]| >= MinCells then [(start, rows[start])] + rest else rest
  }

  /** The results parser: skips the header and reads every data row of at
      least four cells, in order. A missing table gives no files. */
  method ParseSearchResults(table: Option<seq<Row>>, clock: nat -> nat) returns (files: seq<UyapFile>)
    ensures files == if table.None? then [] else ParsedFrom(DataRows(table.value), 0, clock)
  {
    files := [];
    if table.Some? {
      var rows := DataRows(table.value);
      for i := 0 to |rows|
        invariant files + ParsedFrom(rows, i, clock) == ParsedFrom(rows, 0, clock)
      {
        ghost var before, read, rest := files, RowFiles(rows[i], i, clock), ParsedFrom(rows, i + 1, clock);
        if |rows[i]| >= MinCells {
          files := files + [RowToFile(rows[i], FileId(i, clock(i)))];
        }
        assert files == before + read;
        assert (before + read) + rest == before + (read + rest);
      }
      assert files + [] == files;
    }
  }

  /** Reading the rows before position `i` and then the rows from `i` on is
      reading them all, with positions continuing across the split. */
  lemma {:induction false} ParsedSplit(rows: seq<Row>, start: nat, i: nat, clock: nat -> nat)
    requires start <= i <= |rows|
    ensures ParsedFrom(rows, start, clock) == ParsedFrom(rows[..i], start, clock) + ParsedFrom(rows, i, clock)
    decreases i - start
  {
    if start < i {
      ParsedSplit(rows, start + 1, i, clock);
      assert rows[..i][start] == rows[start];
    }
  }

  /** Cells after the sixth are never read. */
  lemma RowToFileExtraCells(cells: Row, extra: Row, id: string)
    requires |cells| >= 6
    ensures RowToFile(cells + extra, id) == RowToFile(cells, id)
  {
    var all := cells + extra;
    forall k | 0 <= k < 6
      ensures StrippedCells(all)[k] == StrippedCells(cells)[k]
    {
      StrippedCellsAt(all, k);
      StrippedCellsAt(cells, k);
    }
  }

  /** What the file read from a row holds: esas_no is the trimmed first
      cell, mahkeme and yargi_birimi both the trimmed second cell, yargi_turu
      the third, durum the fourth, acilis_tarihi and taraflar the fifth and
      sixth when present and "" otherwise, the remaining fields empty, and the
      id is stamped with the row's position and the clock reading for it. */
  ghost predicate ReadFromRow(f: UyapFile, cells: Row, index: nat, clock: nat -> nat) {
    && |cells| >= MinCells
    && f.id == FileId(index, clock(index))
    && f.esasNo == Strip(cells[0])
    && f.mahkeme == Strip(cells[1])
    && f.yargiBirimi == Strip(cells[1])
    && f.yargiTuru == Strip(cells[2])
    && f.durum == Strip(cells[3])
    && f.acilisTarihi == (if |cells| > 4 then Strip(cells[4]) else "")
    && f.taraflar == (if |cells| > 5 then Strip(cells[5]) else "")
    && f.davali == "" && f.davaci == "" && f.subject == "" && f.lastAction == "" && f.nextHearing == ""
  }

  /** File k of the parse is built from the k-th kept row. */
  lemma {:induction false} ParsedKept(rows: seq<Row>, start: nat, clock: nat -> nat)
    ensures |ParsedFrom(rows, start, clock)| == |Kept(rows, start)|
    ensures forall k :: 0 <= k < |Kept(rows, start)| ==>
      ParsedFrom(rows, start, clock)[k]
        == RowToFile(Kept(rows, start)[k].1, FileId(Kept(rows, start)[k].0, clock(Kept(rows, start)[k].0)))
    decreases |rows| - start
  {
    if start < |rows| {
      ParsedKept(rows, start + 1, clock);
    }
  }

  /** Each kept row is the data row at its position, and there are at most
      as many kept rows as data rows from `start` on. */
  lemma {:induction false} KeptFromRows(rows: seq<Row>, start: nat)
    requires start <= |rows|
    ensures start + |Kept(rows, start)| <= |rows|
    ensures forall k :: 0 <= k < |Kept(rows, start)| ==>
      start <= Kept(rows, start)[k].0 < |rows| && rows[Kept(rows, start)[k].0] == Kept(rows, start)[k].1
    decreases |rows| - start
  {
    if start < |rows| {
      KeptFromRows(rows, start + 1);
    }
  }

  /** The kept rows keep the order of the table. */
  lemma {:induction false} KeptInOrder(rows: seq<Row>, start: nat)
    ensures forall k, l :: 0 <= k < l < |Kept(rows, start)| ==> Kept(rows, start)[k].0 < Kept(rows, start)[l].0
    decreases |rows| - start
  {
    if start < |rows| {
      KeptInOrder(rows, start + 1);
      KeptFromRows(rows, start + 1);
    }
  }

  /** Every data row of at least four cells is kept. */
  lemma {:induction false} KeptComplete(rows: seq<Row>, start: nat)
    ensures forall j :: start <= j < |rows| && |rows[j]| >= MinCells ==> (j, rows[j]) in Kept(rows, start)
    decreases |rows| - start
  {
    if start < |rows| {
      KeptComplete(rows, start + 1);
    }
  }

  lemma RowToFileReads(cells: Row, index: nat, clock: nat -> nat)
    requires |cells| >= MinCells
    ensures ReadFromRow(RowToFile(cells, FileId(index, clock(index))), cells, index, clock)
  {
    forall k | 0 <= k < |cells| && k < 6
      ensures StrippedCells(cells)[k] == Strip(cells[k])
    {
      StrippedCellsAt(cells, k);
    }
  }

  /** The parser's output, read against the table: file k is read from the
      k-th data row of at least four cells, at that row's position. */
  lemma ParsedRows(rows: seq<Row>, clock: nat -> nat)
    ensures var files, kept := ParsedFrom(rows, 0, clock), Kept(rows, 0);
      && |files| == |kept| <= |rows|
      && (forall k :: 0 <= k < |kept| ==>
            kept[k].0 < |rows| && rows[kept[k].0] == kept[k].1
            && ReadFromRow(files[k], kept[k].1, kept[k].0, clock))
      && (forall k, l :: 0 <= k < l < |kept| ==> kept[k].0 < kept[l].0)
      && (forall j :: 0 <= j < |rows| && |rows[j]| >= MinCells ==> (j, rows[j]) in kept)
  {
    ParsedKept(rows, 0, clock);
    KeptFromRows(rows, 0);
    KeptInOrder(rows, 0);
    KeptComplete(rows, 0);
    var kept := Kept(rows, 0);
    forall k | 0 <= k < |kept|
      ensures ReadFromRow(ParsedFrom(rows, 0, clock)[k], kept[k].1, kept[k].0, clock)
    {
      RowToFileReads(kept[k].1, kept[k].0, clock);
    }
  }

  /** At most one file per data row. */
  lemma ParsedLength(table: seq<Row>, clock: nat -> nat)
    ensures |ParsedFrom(DataRows(table), 0, clock)| <= |DataRows(table)|
    ensures |table| >= 1 ==> |ParsedFrom(DataRows(table), 0, clock)| <= |table| - 1
  {
    ParsedKept(DataRows(table), 0, clock);
    KeptFromRows(DataRows(table), 0);
  }

  /** Rows that all have at least four cells are all kept. */
  lemma {:induction false} ParsedAllWide(rows: seq<Row>, start: nat, clock: nat -> nat)
    requires start <= |rows|
    requires forall j :: start <= j < |rows| ==> |rows[j]| >= MinCells
    ensures |ParsedFrom(rows, start, clock)| == |rows| - start
    decreases |rows| - start
  {
    if start < |rows| {
      ParsedAllWide(rows, start + 1, clock);
    }
  }

  /** Two strings each split once at a separator they do not contain
      before it come apart the same way. */
  lemma SplitAtSeparator(a: string, b: string, c: string, d: string, sep: char)
    requires sep !in a && sep !in c
    requires a + [sep] + b == c + [sep] + d
    ensures a == c && b == d
  {
    var x := a + [sep] + b;
    assert x[|a|] == sep;
    assert x[|c|] == sep;
    assert forall i :: 0 <= i < |a| ==> x[i] == a[i] && x[i] != sep;
    assert forall i :: 0 <= i < |c| ==> x[i] == c[i] && x[i] != sep;
    assert |a| == |c|;
    assert a == x[..|a|] && c == x[..|c|];
    assert b == x[|a| + 1..] && d == x[|c| + 1..];
  }

  /** Different rows or different clock readings give different ids. */
  lemma FileIdInjective(i: nat, t: nat, j: nat, u: nat)
    requires FileId(i, t) == FileId(j, u)
    ensures i == j && t == u
  {
    var p := "uyap_file_";
    var x, y := Decimal(i) + "_" + Decimal(t), Decimal(j) + "_" + Decimal(u);
    assert FileId(i, t) == p + x && FileId(j, u) == p + y;
    assert x == (p + x)[|p|..] && y == (p + y)[|p|..];
    assert '_' !in Decimal(i) && '_' !in Decimal(j);
    SplitAtSeparator(Decimal(i), Decimal(t), Decimal(j), Decimal(u), '_');
    DecimalInjective(i, j);
    DecimalInjective(t, u);
  }

  /** The files of one parse carry pairwise distinct ids. */
  lemma ParsedIdsDistinct(rows: seq<Row>, clock: nat -> nat)
    ensures var files := ParsedFrom(rows, 0, clock);
      forall k, l :: 0 <= k < l < |files| ==> files[k].id != files[l].id
  {
    ParsedRows(rows, clock);
    var files, kept := ParsedFrom(rows, 0, clock), Kept(rows, 0);
    forall k, l | 0 <= k < l < |files|
      ensures files[k].id != files[l].id
    {
      if files[k].id == files[l].id {
        FileIdInjective(kept[k].0, clock(kept[k].0), kept[l].0, clock(kept[l].0));
      }
    }
  }
}
