/**
 * Turning a markdown document into tables: find each block of pipe rows,
 * read its header, separator, optional sub-header and data rows into a
 * frame, attach the caption found above it, then fold continuations.
 */
module Extractor {
  import opened Wrappers
  import opened Text
  import opened Models
  import Parser
  import Cleaner
  import Merger

  // ---------------------------------------------------------------------------
  // The block of a table
  // ---------------------------------------------------------------------------

  /** The line after the consecutive table rows from line `start` on. */
  function BlockEnd(lines: seq<string>, start: nat): (e: nat)
    ensures start <= e && (e > start ==> e <= |lines|)
    decreases |lines| - start
  {
    if start < |lines| && Parser.IsTableRow(lines[start]) then BlockEnd(lines, start + 1) else start
  }

  /** A block is a maximal run of table rows: every line in it is one, the line after it is not. */
  lemma {:induction false} BlockEndSpec(lines: seq<string>, start: nat)
    ensures var e := BlockEnd(lines, start);
      && (forall k :: start <= k < e ==> Parser.IsTableRow(lines[k]))
      && (e < |lines| ==> !Parser.IsTableRow(lines[e]))
    decreases |lines| - start
  {
    if start < |lines| && Parser.IsTableRow(lines[start]) {
      BlockEndSpec(lines, start + 1);
    }
  }

  /** The consecutive table rows from line `start` on. */
  function Block(lines: seq<string>, start: nat): (b: seq<string>)
    ensures |b| == BlockEnd(lines, start) - start
  {
    var e := BlockEnd(lines, start);
    if e > start then lines[start..e] else []
  }

  /** The first separator row at position `from` or later. */
  function FirstSeparator(rows: seq<string>, from: nat): (r: Option<nat>)
    ensures r.Some? ==> from <= r.value < |rows|
    decreases |rows| - from
  {
    if from >= |rows| then None
    else if Parser.IsSeparatorRow(rows[from]) then Some(from)
    else FirstSeparator(rows, from + 1)
  }

  /** The search finds a separator, and none comes before it; `None` means there is none at all. */
  lemma {:induction false} FirstSeparatorSpec(rows: seq<string>, from: nat)
    ensures var r := FirstSeparator(rows, from);
      && (r.Some? ==> Parser.IsSeparatorRow(rows[r.value]))
      && (forall k :: from <= k < |rows| && (r.None? || k < r.value) ==> !Parser.IsSeparatorRow(rows[k]))
    decreases |rows| - from
  {
    if from < |rows| {
      var here := Parser.IsSeparatorRow(rows[from]);
      if here {
        assert FirstSeparator(rows, from) == Some(from);
      } else {
        var r := FirstSeparator(rows, from + 1);
        assert FirstSeparator(rows, from) == r;
        FirstSeparatorSpec(rows, from + 1);
        forall k | from <= k < |rows| && (r.None? || k < r.value)
          ensures !Parser.IsSeparatorRow(rows[k])
        {
          if k == from {
            assert !here;
          }
        }
      }
    }
  }

  // ---------------------------------------------------------------------------
  // Headers
  // ---------------------------------------------------------------------------

  /** `[clean_column_name(h) for h in headers]`. */
  function CleanNames(cells: seq<string>): (r: seq<string>)
    ensures |r| == |cells|
  {
    if cells == [] then [] else CleanNames(cells[..|cells| - 1]) + [Cleaner.CleanColumnName(cells[|cells| - 1])]
  }

  lemma {:induction false} CleanNamesAt(cells: seq<string>, k: nat)
    requires k < |cells|
    ensures CleanNames(cells)[k] == Cleaner.CleanColumnName(cells[k])
    decreases |cells|
  {
    if k < |cells| - 1 {
      CleanNamesAt(cells[..|cells| - 1], k);
    }
  }

  /** More than 70 % of the header cells are blank (`count / len > 0.7`, as `10 * count > 7 * len`). */
  predicate MostlyEmpty(headers: seq<string>)
  {
    |headers| > 0 && 10 * Parser.EmptyCount(headers) > 7 * |headers|
  }

  /** Some cell is not blank. */
  predicate AnyContent(cells: seq<string>)
  {
    exists k :: 0 <= k < |cells| && Trim(cells[k]) != []
  }

  /** One column of the header swap: the next row's cleaned text, prefixed by the old header when there is one. */
  function SwapCell(oldHeader: string, clean: string): string
  {
    if Trim(clean) != [] then
      if Trim(oldHeader) != [] then Trim(oldHeader) + " " + clean else clean
    else Trim(oldHeader)
  }

  /** The header swap position by position, on the cleaned next row; `zip` stops at the shorter row. */
  function SwappedHeaders(headers: seq<string>, cleanNext: seq<string>): (r: seq<string>)
    ensures |r| == if |headers| < |cleanNext| then |headers| else |cleanNext|
  {
    var n := if |headers| < |cleanNext| then |headers| else |cleanNext|;
    Zip(SwapCell, headers[..n], cleanNext[..n])
  }

  /** Which header treatment the row after the separator gets. */
  datatype HeaderCase = Plain | Swapped | SubHeader

  function HeaderCaseOf(headers: seq<string>, rows: seq<string>, dataStart: nat, skipSubHeaders: bool): HeaderCase
  {
    if !skipSubHeaders || dataStart >= |rows| then Plain
    else if MostlyEmpty(headers) && AnyContent(Parser.ParseTableRow(rows[dataStart])) then Swapped
    else if Parser.IsSubHeaderRow(rows[dataStart], Parser.SubHeaderNum, Parser.SubHeaderDen) then SubHeader
    else Plain
  }

  /** The final headers of a separated block. */
  function FinalHeaders(headers: seq<string>, rows: seq<string>, dataStart: nat, skipSubHeaders: bool): seq<string>
  {
    match HeaderCaseOf(headers, rows, dataStart, skipSubHeaders)
    case Plain => headers
    case Swapped => SwappedHeaders(headers, CleanNames(Parser.ParseTableRow(rows[dataStart])))
    case SubHeader => Cleaner.FusedHeaders(headers, Parser.ParseTableRow(rows[dataStart]))
  }

  // ---------------------------------------------------------------------------
  // Data rows
  // ---------------------------------------------------------------------------

  /** `[clean_value(c) for c in cells]`. */
  function CleanValues(cells: seq<string>): (r: seq<string>)
    ensures |r| == |cells|
  {
    if cells == [] then [] else CleanValues(cells[..|cells| - 1]) + [Cleaner.CleanValue(cells[|cells| - 1])]
  }

  lemma {:induction false} CleanValuesAt(cells: seq<string>, k: nat)
    requires k < |cells|
    ensures CleanValues(cells)[k] == Cleaner.CleanValue(cells[k])
    decreases |cells|
  {
    if k < |cells| - 1 {
      CleanValuesAt(cells[..|cells| - 1], k);
    }
  }

  /** A row padded with empty strings, or cut, to `width` cells. */
  function FitRow(cells: seq<string>, width: nat): (r: seq<string>)
    ensures |r| == width
  {
    if |cells| < width then cells + seq(width - |cells|, _ => [])
    else if |cells| > width then cells[..width]
    else cells
  }

  /** What one line after the headers contributes: nothing for a separator, else its cleaned, fitted cells. */
  function RowOf(line: string, width: nat): (r: seq<seq<string>>)
    ensures |r| <= 1
  {
    if Parser.IsSeparatorRow(line) then [] else [FitRow(CleanValues(Parser.ParseTableRow(line)), width)]
  }

  /** The data rows of the lines after the headers: separators skipped, cells cleaned and fitted. */
  function DataRows(ls: seq<string>, width: nat): (r: seq<seq<string>>)
    ensures |r| <= |ls|
  {
    if ls == [] then [] else DataRows(ls[..|ls| - 1], width) + RowOf(ls[|ls| - 1], width)
  }

  lemma DataStep(ls: seq<string>, width: nat, i: nat)
    requires i < |ls|
    ensures DataRows(ls[..i + 1], width) == DataRows(ls[..i], width) + RowOf(ls[i], width)
  {
    assert ls[..i + 1][..i] == ls[..i];
  }

  /** The widest row: the column count pandas gives a frame built from ragged rows. */
  function MaxWidth(rows: seq<seq<string>>): (n: nat)
    ensures forall k :: 0 <= k < |rows| ==> |rows[k]| <= n
    ensures rows != [] ==> exists k :: 0 <= k < |rows| && |rows[k]| == n
  {
    if rows == [] then 0
    else
      var m := MaxWidth(rows[1..]);
      assert forall k :: 1 <= k < |rows| ==> rows[k] == rows[1..][k - 1];
      if |rows[0]| >= m then |rows[0]| else m
  }

  /** `[parse_table_row(line) for line in table_lines]`. */
  function ParseRows(rows: seq<string>): (r: seq<seq<string>>)
    ensures |r| == |rows|
    ensures forall k :: 0 <= k < |r| ==> r[k] == Parser.ParseTableRow(rows[k])
  {
    seq(|rows|, k requires 0 <= k < |rows| => Parser.ParseTableRow(rows[k]))
  }

  /**
   * The rows of pandas' frame built from ragged rows: each row padded on
   * the right to `width` cells, the missing cells (`None`) written as `""`.
   */
  function PadRows(rows: seq<seq<string>>, width: nat): (r: seq<seq<string>>)
    requires forall k :: 0 <= k < |rows| ==> |rows[k]| <= width
    ensures |r| == |rows|
    ensures forall k :: 0 <= k < |r| ==> |r[k]| == width
    ensures forall k :: 0 <= k < |r| ==> r[k][..|rows[k]|] == rows[k]
    ensures forall k, j :: 0 <= k < |r| && |rows[k]| <= j < width ==> r[k][j] == []
  {
    seq(|rows|, k requires 0 <= k < |rows| => FitRow(rows[k], width))
  }

  // ---------------------------------------------------------------------------
  // One table
  // ---------------------------------------------------------------------------

  /** The table of a separated block whose separator is at `sep`. */
  function SeparatedTable(lines: seq<string>, start: nat, rows: seq<string>, sep: nat,
                          detectCaptions: bool, skipSubHeaders: bool): Table
    requires 0 < sep < |rows| && start + |rows| <= |lines|
  {
    var headers := CleanNames(Parser.ParseTableRow(rows[0]));
    var hc := HeaderCaseOf(headers, rows, sep + 1, skipSubHeaders);
    var final := FinalHeaders(headers, rows, sep + 1, skipSubHeaders);
    var dataStart := if hc == Plain then sep + 1 else sep + 2;
    var info := if detectCaptions then Parser.CaptionSearch(lines, start, Parser.CaptionLookback) else Parser.NoCaption;
    Table(Frame(Named(final), DataRows(rows[dataStart..], |final|)),
          info.caption, start, start + |rows|, Join(rows, "\n"),
          info.isContinuation, Some(CaptionMeta(info.tableNumber, info.isBare)))
  }

  /** The table read from the block `rows` found at `start`. */
  function BlockTable(lines: seq<string>, start: nat, rows: seq<string>, detectCaptions: bool, skipSubHeaders: bool): Table
    requires |rows| >= 2 ==> start + |rows| <= |lines|
  {
    var end := start + |rows|;
    if |rows| < 2 then Table(EmptyFrame, None, start, end, [], false, None)
    else
      match FirstSeparator(rows, 1)
      case None =>
        var data := ParseRows(rows);
        Table(Frame(Positional(MaxWidth(data)), PadRows(data, MaxWidth(data))), None, start, end, [], false, None)
      case Some(sep) => SeparatedTable(lines, start, rows, sep, detectCaptions, skipSubHeaders)
  }

  /** `extract_single_table`: the table of the block at `start`, and the line after it. */
  function SingleTable(lines: seq<string>, start: nat, detectCaptions: bool, skipSubHeaders: bool): (Table, nat)
  {
    var rows := Block(lines, start);
    (BlockTable(lines, start, rows, detectCaptions, skipSubHeaders), start + |rows|)
  }

  lemma BlockEndStep(lines: seq<string>, idx: nat)
    requires idx < |lines| && Parser.IsTableRow(lines[idx])
    ensures BlockEnd(lines, idx) == BlockEnd(lines, idx + 1)
  {
  }

  lemma BlockEndStop(lines: seq<string>, idx: nat)
    requires !(idx < |lines| && Parser.IsTableRow(lines[idx]))
    ensures BlockEnd(lines, idx) == idx
  {
  }

  lemma SliceExtend<T>(s: seq<T>, i: nat, j: nat)
    requires i <= j < |s|
    ensures s[i..j] + [s[j]] == s[i..j + 1]
  {
  }

  /** One more table row extends the rows collected from `start` and keeps the block's end. */
  lemma RowsGrow(lines: seq<string>, start: nat, idx: nat, tableLines: seq<string>)
    requires start <= idx < |lines| && Parser.IsTableRow(lines[idx])
    requires idx == start ==> tableLines == []
    requires idx > start ==> tableLines == lines[start..idx]
    ensures tableLines + [lines[idx]] == lines[start..idx + 1]
    ensures BlockEnd(lines, idx + 1) == BlockEnd(lines, idx)
  {
    BlockEndStep(lines, idx);
    if idx > start {
      SliceExtend(lines, start, idx);
    }
  }

  /** Once the next line is not a table row, the rows collected from `start` are its block. */
  lemma RowsComplete(lines: seq<string>, start: nat, idx: nat, tableLines: seq<string>)
    requires start <= idx && (idx > start ==> idx <= |lines|)
    requires idx == start ==> tableLines == []
    requires idx > start ==> tableLines == lines[start..idx]
    requires BlockEnd(lines, idx) == BlockEnd(lines, start)
    requires !(idx < |lines| && Parser.IsTableRow(lines[idx]))
    ensures tableLines == Block(lines, start) && idx == start + |tableLines|
  {
    BlockEndStop(lines, idx);
  }

  /** The row collection loop: table rows from `start` while they last. */
  method CollectRows(lines: seq<string>, start: nat) returns (tableLines: seq<string>, idx: nat)
    ensures tableLines == Block(lines, start) && idx == start + |tableLines|
  {
    tableLines := [];
    idx := start;
    while idx < |lines| && Parser.IsTableRow(lines[idx])
      invariant start <= idx && (idx > start ==> idx <= |lines|)
      invariant idx == start ==> tableLines == []
      invariant idx > start ==> tableLines == lines[start..idx]
      invariant BlockEnd(lines, idx) == BlockEnd(lines, start)
      decreases |lines| - idx
    {
      RowsGrow(lines, start, idx, tableLines);
      tableLines := tableLines + [lines[idx]];
      idx := idx + 1;
    }
    RowsComplete(lines, start, idx, tableLines);
  }

  /** The separator search: the first separator after the header row. */
  method FindSeparator(tableLines: seq<string>) returns (separatorIdx: Option<nat>)
    ensures separatorIdx == FirstSeparator(tableLines, 1)
  {
    var i := 1;
    while i < |tableLines| && !Parser.IsSeparatorRow(tableLines[i])
      invariant 1 <= i
      invariant FirstSeparator(tableLines, i) == FirstSeparator(tableLines, 1)
      decreases |tableLines| - i
    {
      i := i + 1;
    }
    separatorIdx := if i < |tableLines| then Some(i) else None;
  }

  /** The header swap loop over `zip(headers, next_row_cells)`. */
  method SwapHeaders(headers: seq<string>, nextRowCells: seq<string>) returns (newHeaders: seq<string>)
    ensures newHeaders == SwappedHeaders(headers, CleanNames(nextRowCells))
  {
    ghost var cleanNext := CleanNames(nextRowCells);
    var n := if |headers| < |nextRowCells| then |headers| else |nextRowCells|;
    newHeaders := [];
    var i := 0;
    while i < n
      invariant 0 <= i <= n
      invariant newHeaders == Zip(SwapCell, headers[..i], cleanNext[..i])
    {
      var oldH, newH := headers[i], nextRowCells[i];
      var newClean := Cleaner.CleanColumnName(newH);
      var cell;
      if Trim(newClean) != [] {
        if Trim(oldH) != [] {
          cell := Trim(oldH) + " " + newClean;
        } else {
          cell := newClean;
        }
      } else {
        cell := Trim(oldH);
      }
      ZipStep(SwapCell, headers, cleanNext, i);
      CleanNamesAt(nextRowCells, i);
      newHeaders := newHeaders + [cell];
      i := i + 1;
    }
  }

  /** Normalising a row's length to the header count. */
  method FitCells(cells: seq<string>, expectedCols: nat) returns (r: seq<string>)
    ensures r == FitRow(cells, expectedCols)
  {
    r := cells;
    if |r| < expectedCols {
      r := r + seq(expectedCols - |r|, _ => []);
    } else if |r| > expectedCols {
      r := r[..expectedCols];
    }
  }

  /** The data row loop: separators skipped, the others cleaned and padded or cut. */
  method BuildDataRows(ls: seq<string>, expectedCols: nat) returns (dataRows: seq<seq<string>>)
    ensures dataRows == DataRows(ls, expectedCols)
  {
    dataRows := [];
    var i := 0;
    while i < |ls|
      invariant 0 <= i <= |ls|
      invariant dataRows == DataRows(ls[..i], expectedCols)
    {
      var line := ls[i];
      DataStep(ls, expectedCols, i);
      var isSeparator := Parser.IsSeparatorRow(line);
      if !isSeparator {
        var cells := CleanValues(Parser.ParseTableRow(line));
        cells := FitCells(cells, expectedCols);
        assert RowOf(line, expectedCols) == [cells];
        dataRows := dataRows + [cells];
      } else {
        assert RowOf(line, expectedCols) == [];
        assert dataRows + [] == dataRows;
      }
      i := i + 1;
    }
    assert ls[..i] == ls;
  }

  /** The header treatment: the swap with the row after the separator, or its fusion as a sub-header. */
  method TreatHeaders(headers: seq<string>, tableLines: seq<string>, sep: nat, skipSubHeaders: bool)
    returns (newHeaders: seq<string>, dataStart: nat)
    requires sep < |tableLines|
    ensures newHeaders == FinalHeaders(headers, tableLines, sep + 1, skipSubHeaders)
    ensures dataStart == if HeaderCaseOf(headers, tableLines, sep + 1, skipSubHeaders) == Plain then sep + 1 else sep + 2
  {
    newHeaders := headers;
    dataStart := sep + 1;
    if skipSubHeaders && dataStart < |tableLines| {
      var nextRowCells := Parser.ParseTableRow(tableLines[dataStart]);
      if MostlyEmpty(headers) && AnyContent(nextRowCells) {
        newHeaders := SwapHeaders(headers, nextRowCells);
        dataStart := dataStart + 1;
      } else if Parser.IsSubHeaderRow(tableLines[dataStart], Parser.SubHeaderNum, Parser.SubHeaderDen) {
        newHeaders := Cleaner.MergeSubHeader(headers, nextRowCells);
        dataStart := dataStart + 1;
      }
    }
  }

  /** The table of a block with a separator: headers, data rows, caption and metadata. */
  method ReadSeparated(lines: seq<string>, start: nat, tableLines: seq<string>, sep: nat,
                       detectCaptions: bool, skipSubHeaders: bool) returns (table: Table)
    requires 0 < sep < |tableLines| && start + |tableLines| <= |lines|
    ensures table == SeparatedTable(lines, start, tableLines, sep, detectCaptions, skipSubHeaders)
  {
    var headers := CleanNames(Parser.ParseTableRow(tableLines[0]));
    var newHeaders, dataStart := TreatHeaders(headers, tableLines, sep, skipSubHeaders);
    var dataRows := BuildDataRows(tableLines[dataStart..], |newHeaders|);
    var info := Parser.NoCaption;
    if detectCaptions {
      info := Parser.DetectCaption(lines, start, Parser.CaptionLookback);
    }
    table := Table(Frame(Named(newHeaders), dataRows), info.caption, start, start + |tableLines|, Join(tableLines, "\n"),
                   info.isContinuation, Some(CaptionMeta(info.tableNumber, info.isBare)));
  }

  /** The table of a block that has a separator row after its first line. */
  method ReadSeparatedBlock(lines: seq<string>, start: nat, tableLines: seq<string>, sep: nat,
                            detectCaptions: bool, skipSubHeaders: bool) returns (table: Table)
    requires 2 <= |tableLines| && start + |tableLines| <= |lines| && FirstSeparator(tableLines, 1) == Some(sep)
    ensures table == BlockTable(lines, start, tableLines, detectCaptions, skipSubHeaders)
  {
    table := ReadSeparated(lines, start, tableLines, sep, detectCaptions, skipSubHeaders);
  }

  /** The table of the rows `tableLines` collected from `start`. */
  method ReadBlock(lines: seq<string>, start: nat, tableLines: seq<string>, detectCaptions: bool, skipSubHeaders: bool)
    returns (table: Table)
    requires tableLines == Block(lines, start)
    ensures table == BlockTable(lines, start, tableLines, detectCaptions, skipSubHeaders)
  {
    var end := start + |tableLines|;
    if |tableLines| < 2 {
      return Table(EmptyFrame, None, start, end, [], false, None);
    }
    var separatorIdx := FindSeparator(tableLines);
    if separatorIdx.None? {
      var rows := ParseRows(tableLines);
      var width := MaxWidth(rows);
      return Table(Frame(Positional(width), PadRows(rows, width)), None, start, end, [], false, None);
    }
    table := ReadSeparatedBlock(lines, start, tableLines, separatorIdx.value, detectCaptions, skipSubHeaders);
  }

  /** `extract_single_table`. */
  method ExtractSingleTable(lines: seq<string>, start: nat, detectCaptions: bool, skipSubHeaders: bool)
    returns (table: Table, end: nat)
    ensures table == SingleTable(lines, start, detectCaptions, skipSubHeaders).0
    ensures end == SingleTable(lines, start, detectCaptions, skipSubHeaders).1
  {
    var tableLines, idx := CollectRows(lines, start);
    end := idx;
    table := ReadBlock(lines, start, tableLines, detectCaptions, skipSubHeaders);
  }

  // ---------------------------------------------------------------------------
  // The document
  // ---------------------------------------------------------------------------

  /** A block that starts at a table row holds at least that row. */
  lemma BlockAdvances(lines: seq<string>, idx: nat)
    requires idx < |lines| && Parser.IsTableRow(lines[idx])
    ensures SingleTable(lines, idx, true, true).1 > idx
    ensures forall d: bool, s: bool :: SingleTable(lines, idx, d, s).1 == BlockEnd(lines, idx) > idx
  {
    BlockEndStep(lines, idx);
  }

  /** How the scan reads the table whose block starts at a given line. */
  type Reader = (seq<string>, nat) -> Table

  /** `extract_single_table` with the given options, as a reader. */
  function ReadOf(detectCaptions: bool, skipSubHeaders: bool): Reader
  {
    (lines: seq<string>, start: nat) => SingleTable(lines, start, detectCaptions, skipSubHeaders).0
  }

  /** A reader that reports each table at the lines of the block it was read from. */
  ghost predicate ReadsBlocks(read: Reader)
  {
    forall lines: seq<string>, start: nat ::
      read(lines, start).startLine == start && read(lines, start).endLine == BlockEnd(lines, start)
  }

  lemma ReadOfReadsBlocks(detectCaptions: bool, skipSubHeaders: bool)
    ensures ReadsBlocks(ReadOf(detectCaptions, skipSubHeaders))
  {
    var read := ReadOf(detectCaptions, skipSubHeaders);
    forall lines: seq<string>, start: nat
      ensures read(lines, start).startLine == start && read(lines, start).endLine == BlockEnd(lines, start)
    {
      TableBounds(lines, start, detectCaptions, skipSubHeaders);
      assert read(lines, start) == SingleTable(lines, start, detectCaptions, skipSubHeaders).0;
      assert SingleTable(lines, start, detectCaptions, skipSubHeaders).1 == start + |Block(lines, start)|;
    }
  }

  /** The scan of the document from line `idx`: every block read, empty frames dropped. */
  function Collect(read: Reader, lines: seq<string>, idx: nat): seq<Table>
    decreases |lines| - idx
  {
    if idx >= |lines| then []
    else if Parser.IsTableRow(lines[idx]) then
      BlockEndStep(lines, idx);
      var t := read(lines, idx);
      (if t.frame.IsEmpty() then [] else [t]) + Collect(read, lines, BlockEnd(lines, idx))
    else Collect(read, lines, idx + 1)
  }

  /** The merge stage of `extract_markdown_tables` on the collected tables. */
  function Finish(tables: seq<Table>, strategy: Strategy): Outcome<ExtractionResult>
  {
    if strategy == NoMerge then Done(ExtractionResult(tables, [], 0))
    else
      match Merger.MergeTablesSpec(tables, strategy)
      case Done(merged) => Done(ExtractionResult(merged, [], |tables| - |merged|))
      case TypeError => TypeError
      case ColumnUnion => ColumnUnion
  }

  /** `extract_markdown_tables`, as a specification. */
  function Extraction(text: string, strategy: Strategy, detectCaptions: bool, skipSubHeaders: bool): Outcome<ExtractionResult>
  {
    Finish(Collect(ReadOf(detectCaptions, skipSubHeaders), SplitOn(text, '\n'), 0), strategy)
  }

  lemma ExtractionOf(text: string, strategy: Strategy, detectCaptions: bool, skipSubHeaders: bool, tables: seq<Table>)
    requires tables == Collect(ReadOf(detectCaptions, skipSubHeaders), SplitOn(text, '\n'), 0)
    ensures Extraction(text, strategy, detectCaptions, skipSubHeaders) == Finish(tables, strategy)
  {
  }

  /** One step of the scan. */
  lemma CollectStep(read: Reader, lines: seq<string>, idx: nat)
    requires idx < |lines|
    ensures Parser.IsTableRow(lines[idx]) ==>
      var t := read(lines, idx);
      Collect(read, lines, idx) == (if t.frame.IsEmpty() then [] else [t]) + Collect(read, lines, BlockEnd(lines, idx))
    ensures !Parser.IsTableRow(lines[idx]) ==> Collect(read, lines, idx) == Collect(read, lines, idx + 1)
  {
  }

  /** The line loop of `extract_markdown_tables`: each table row starts a block; empty frames are dropped. */
  method ScanTables(lines: seq<string>, detectCaptions: bool, skipSubHeaders: bool) returns (tables: seq<Table>)
    ensures tables == Collect(ReadOf(detectCaptions, skipSubHeaders), lines, 0)
  {
    ghost var read := ReadOf(detectCaptions, skipSubHeaders);
    tables := [];
    var idx := 0;
    while idx < |lines|
      invariant idx <= |lines|
      invariant tables + Collect(read, lines, idx) == Collect(read, lines, 0)
      decreases |lines| - idx
    {
      CollectStep(read, lines, idx);
      if Parser.IsTableRow(lines[idx]) {
        BlockAdvances(lines, idx);
        var table, end := ExtractSingleTable(lines, idx, detectCaptions, skipSubHeaders);
        assert table == read(lines, idx) && end == BlockEnd(lines, idx);
        ghost var found := if table.frame.IsEmpty() then [] else [table];
        AppendTables(tables, found, Collect(read, lines, end));
        if !table.frame.IsEmpty() {
          tables := tables + [table];
        } else {
          assert tables + [] == tables;
        }
        idx := end;
      } else {
        idx := idx + 1;
      }
    }
    assert tables + [] == tables;
  }

  /** The merge stage of `extract_markdown_tables`, counting the tables merged away. */
  method MergeStage(tables: seq<Table>, mergeStrategy: Strategy) returns (out: Outcome<ExtractionResult>)
    ensures out == Finish(tables, mergeStrategy)
  {
    var errors: seq<string> := [];
    var originalCount := |tables|;
    var result := tables;
    if mergeStrategy != NoMerge {
      var merged := Merger.MergeTables(tables, mergeStrategy);
      if !merged.Done? {
        if merged.TypeError? {
          return TypeError;
        }
        return ColumnUnion;
      }
      result := merged.value;
    }
    var mergedCount := originalCount - |result|;
    return Done(ExtractionResult(result, errors, mergedCount));
  }

  /** `extract_markdown_tables`: the line loop, then the merge of continuations. */
  method ExtractMarkdownTables(text: string, mergeStrategy: Strategy, detectCaptions: bool, skipSubHeaders: bool)
    returns (out: Outcome<ExtractionResult>)
    ensures out == Extraction(text, mergeStrategy, detectCaptions, skipSubHeaders)
  {
    var lines := SplitOn(text, '\n');
    var tables := ScanTables(lines, detectCaptions, skipSubHeaders);
    out := MergeStage(tables, mergeStrategy);
    ExtractionOf(text, mergeStrategy, detectCaptions, skipSubHeaders, tables);
  }

  /** `extract_tables`: the frames of an extraction with every option at its default. */
  function ExtractTables(text: string): (r: Outcome<seq<Frame>>)
    ensures r.Done? <==> Extraction(text, IdenticalHeaders, true, true).Done?
    ensures r.Done? ==> r.value == Extraction(text, IdenticalHeaders, true, true).value.GetDataframes()
  {
    match Extraction(text, IdenticalHeaders, true, true)
    case Done(result) => Done(result.GetDataframes())
    case TypeError => TypeError
    case ColumnUnion => ColumnUnion
  }

  // ---------------------------------------------------------------------------
  // Properties of one table
  // ---------------------------------------------------------------------------

  /** A table spans exactly its block: a maximal run of table rows starting at `start`. */
  lemma SingleTableSpan(lines: seq<string>, start: nat, detectCaptions: bool, skipSubHeaders: bool)
    requires start < |lines| && Parser.IsTableRow(lines[start])
    ensures var (t, e) := SingleTable(lines, start, detectCaptions, skipSubHeaders);
      && t.startLine == start && t.endLine == e && start < e <= |lines|
      && (forall k :: start <= k < e ==> Parser.IsTableRow(lines[k]))
      && (e < |lines| ==> !Parser.IsTableRow(lines[e]))
  {
    BlockAdvances(lines, start);
    BlockEndSpec(lines, start);
    TableBounds(lines, start, detectCaptions, skipSubHeaders);
  }

  lemma TableBounds(lines: seq<string>, start: nat, detectCaptions: bool, skipSubHeaders: bool)
    ensures var (t, e) := SingleTable(lines, start, detectCaptions, skipSubHeaders);
      t.startLine == start && t.endLine == e
  {
    var rows := Block(lines, start);
    if |rows| >= 2 && FirstSeparator(rows, 1).Some? {
      assert SingleTable(lines, start, detectCaptions, skipSubHeaders).0
          == SeparatedTable(lines, start, rows, FirstSeparator(rows, 1).value, detectCaptions, skipSubHeaders);
    }
  }

  /** A run of fewer than two rows gives the empty frame, which the scan drops. */
  lemma ShortBlockIsEmpty(lines: seq<string>, start: nat, detectCaptions: bool, skipSubHeaders: bool)
    requires |Block(lines, start)| < 2
    ensures SingleTable(lines, start, detectCaptions, skipSubHeaders).0.frame.IsEmpty()
    ensures SingleTable(lines, start, detectCaptions, skipSubHeaders).0.meta == None
  {
  }

  lemma {:induction false} DataRowsWidth(ls: seq<string>, width: nat)
    ensures forall k :: 0 <= k < |DataRows(ls, width)| ==> |DataRows(ls, width)[k]| == width
    decreases |ls|
  {
    if ls != [] {
      DataRowsWidth(ls[..|ls| - 1], width);
    }
  }

  /** The number of lines that are not separator rows. */
  function NonSeparators(ls: seq<string>): nat
  {
    if ls == [] then 0 else NonSeparators(ls[..|ls| - 1]) + (if Parser.IsSeparatorRow(ls[|ls| - 1]) then 0 else 1)
  }

  /** One data row per line that is not a separator row. */
  lemma {:induction false} DataRowsCount(ls: seq<string>, width: nat)
    ensures |DataRows(ls, width)| == NonSeparators(ls)
    decreases |ls|
  {
    if ls != [] {
      DataRowsCount(ls[..|ls| - 1], width);
    }
  }

  /** The frame and raw text of a separated block. */
  lemma SeparatedFrame(lines: seq<string>, start: nat, rows: seq<string>, sep: nat, detectCaptions: bool, skipSubHeaders: bool)
    requires 0 < sep < |rows| && start + |rows| <= |lines|
    ensures var t := SeparatedTable(lines, start, rows, sep, detectCaptions, skipSubHeaders);
      && t.frame.labels.Named?
      && t.frame.Rectangular()
      && t.RowCount() <= |rows| - sep - 1
      && t.rawMarkdown == Join(rows, "\n")
  {
    var headers := CleanNames(Parser.ParseTableRow(rows[0]));
    var final := FinalHeaders(headers, rows, sep + 1, skipSubHeaders);
    var dataStart := if HeaderCaseOf(headers, rows, sep + 1, skipSubHeaders) == Plain then sep + 1 else sep + 2;
    DataRowsWidth(rows[dataStart..], |final|);
  }

  /** The caption fields of a separated block. */
  lemma SeparatedCaption(lines: seq<string>, start: nat, rows: seq<string>, sep: nat, detectCaptions: bool, skipSubHeaders: bool)
    requires 0 < sep < |rows| && start + |rows| <= |lines|
    ensures var t := SeparatedTable(lines, start, rows, sep, detectCaptions, skipSubHeaders);
      var info := Parser.CaptionSearch(lines, start, Parser.CaptionLookback);
      && (detectCaptions ==> t.caption == info.caption && t.isContinuation == info.isContinuation
                             && t.meta == Some(CaptionMeta(info.tableNumber, info.isBare)))
      && (!detectCaptions ==> t.caption == None && !t.isContinuation && t.meta == Some(CaptionMeta(None, false)))
  {
  }

  /**
   * A block with a separator gives named columns, every data row exactly
   * as wide as the headers, at most one row per line after the separator,
   * the raw block text, and caption metadata: the caption found above the
   * block, or none without caption detection.
   */
  lemma SeparatedShape(lines: seq<string>, start: nat, detectCaptions: bool, skipSubHeaders: bool)
    requires |Block(lines, start)| >= 2 && FirstSeparator(Block(lines, start), 1).Some?
    ensures var rows := Block(lines, start);
      var sep := FirstSeparator(rows, 1).value;
      var t := SingleTable(lines, start, detectCaptions, skipSubHeaders).0;
      var info := Parser.CaptionSearch(lines, start, Parser.CaptionLookback);
      && t.frame.labels.Named?
      && t.frame.Rectangular()
      && t.RowCount() <= |rows| - sep - 1
      && t.rawMarkdown == Join(rows, "\n")
      && (detectCaptions ==> t.caption == info.caption && t.isContinuation == info.isContinuation
                             && t.meta == Some(CaptionMeta(info.tableNumber, info.isBare)))
      && (!detectCaptions ==> t.caption == None && !t.isContinuation && t.meta == Some(CaptionMeta(None, false)))
  {
    var rows := Block(lines, start);
    var sep := FirstSeparator(rows, 1).value;
    SeparatedFrame(lines, start, rows, sep, detectCaptions, skipSubHeaders);
    SeparatedCaption(lines, start, rows, sep, detectCaptions, skipSubHeaders);
    assert SingleTable(lines, start, detectCaptions, skipSubHeaders).0 == SeparatedTable(lines, start, rows, sep, detectCaptions, skipSubHeaders);
  }

  /**
   * Without sub-header handling the headers are the cleaned first row and
   * the data rows are read from every line after the separator.
   */
  lemma PlainHeaders(lines: seq<string>, start: nat, detectCaptions: bool)
    requires |Block(lines, start)| >= 2 && FirstSeparator(Block(lines, start), 1).Some?
    ensures var rows := Block(lines, start);
      var sep := FirstSeparator(rows, 1).value;
      var headers := CleanNames(Parser.ParseTableRow(rows[0]));
      var t := SingleTable(lines, start, detectCaptions, false).0;
      t.frame == Frame(Named(headers), DataRows(rows[sep + 1..], |headers|))
  {
    var rows := Block(lines, start);
    var sep := FirstSeparator(rows, 1).value;
    assert SingleTable(lines, start, detectCaptions, false).0 == SeparatedTable(lines, start, rows, sep, detectCaptions, false);
  }

  /**
   * A block without a separator row is read as bare data: every row parsed
   * but not cleaned, pandas' integer labels as wide as the widest row,
   * shorter rows padded to that width, no caption and no metadata.
   */
  lemma UnseparatedShape(lines: seq<string>, start: nat, detectCaptions: bool, skipSubHeaders: bool)
    requires |Block(lines, start)| >= 2 && FirstSeparator(Block(lines, start), 1).None?
    ensures var rows := Block(lines, start);
      var t := SingleTable(lines, start, detectCaptions, skipSubHeaders).0;
      var data := ParseRows(rows);
      && (forall k :: 1 <= k < |rows| ==> !Parser.IsSeparatorRow(rows[k]))
      && t.frame.labels == Positional(MaxWidth(data))
      && t.frame.Rectangular() && |t.frame.rows| == |data|
      && (forall k :: 0 <= k < |data| ==> t.frame.rows[k][..|data[k]|] == Parser.ParseTableRow(rows[k]))
      && (forall k, j :: 0 <= k < |data| && |data[k]| <= j < MaxWidth(data) ==> t.frame.rows[k][j] == [])
      && t.caption == None && !t.isContinuation && t.meta == None
  {
    var rows := Block(lines, start);
    FirstSeparatorSpec(rows, 1);
    UnseparatedTable(lines, start, detectCaptions, skipSubHeaders);
  }

  lemma UnseparatedTable(lines: seq<string>, start: nat, detectCaptions: bool, skipSubHeaders: bool)
    requires |Block(lines, start)| >= 2 && FirstSeparator(Block(lines, start), 1).None?
    ensures var rows := Block(lines, start);
      var data := ParseRows(rows);
      SingleTable(lines, start, detectCaptions, skipSubHeaders).0
        == Table(Frame(Positional(MaxWidth(data)), PadRows(data, MaxWidth(data))), None, start, start + |rows|, [], false, None)
  {
  }

  /** On a cleaned cell, the header swap is the sub-header fusion of `merge_sub_header`. */
  lemma SwapCellIsFusion(oldHeader: string, cell: string)
    ensures SwapCell(oldHeader, Cleaner.CleanColumnName(cell)) == Cleaner.FuseCell(oldHeader, Cleaner.CleanColumnName(cell))
  {
    Cleaner.CleanColumnNameSpec(cell);
  }

  /**
   * Every swapped header is stripped and holds the visible text of the old
   * header followed by that of the next row's cell (tags removed): the swap
   * fuses the two rows the way `merge_sub_header` does.
   */
  lemma SwappedHeadersSpec(headers: seq<string>, next: seq<string>, k: nat)
    requires k < |SwappedHeaders(headers, CleanNames(next))|
    ensures var h := SwappedHeaders(headers, CleanNames(next))[k];
      && h == Cleaner.FuseCell(headers[k], Cleaner.CleanColumnName(next[k]))
      && Trim(h) == h
      && NonSpace(h) == NonSpace(headers[k]) + NonSpace(Cleaner.TagsToSpace(next[k]))
  {
    var c := CleanNames(next);
    var n := if |headers| < |c| then |headers| else |c|;
    assert headers[..n][k] == headers[k] && c[..n][k] == c[k];
    ZipAt(SwapCell, headers[..n], c[..n], k);
    CleanNamesAt(next, k);
    SwapCellIsFusion(headers[k], next[k]);
    Cleaner.FuseCellSpec(headers[k], c[k]);
    Cleaner.CleanColumnNameSpec(next[k]);
  }

  /**
   * With sub-header handling on, an all-blank row right after the separator
   * is taken into the headers (by the swap or as a sub-header) and never
   * becomes a data row: the data rows start one line further down.
   */
  lemma BlankRowConsumed(lines: seq<string>, start: nat, rows: seq<string>, sep: nat, detectCaptions: bool, cells: seq<string>)
    requires 0 < sep && sep + 1 < |rows| && start + |rows| <= |lines|
    requires Parser.IsTableRow(rows[sep + 1]) && cells == Parser.ParseTableRow(rows[sep + 1])
    requires forall k :: 0 <= k < |cells| ==> cells[k] == []
    ensures var t := SeparatedTable(lines, start, rows, sep, detectCaptions, true);
      t.frame.rows == DataRows(rows[sep + 2..], t.ColumnCount())
  {
    assert Trim([]) == [];
    assert !AnyContent(cells);
    Parser.AllBlankIsSubHeader(rows[sep + 1], Parser.SubHeaderNum, Parser.SubHeaderDen);
    var headers := CleanNames(Parser.ParseTableRow(rows[0]));
    assert HeaderCaseOf(headers, rows, sep + 1, true) == SubHeader;
  }


  // ---------------------------------------------------------------------------
  // Properties of the document
  // ---------------------------------------------------------------------------

  /**
   * Tables found from line `idx` on: each starts at a table row at or
   * after `idx`, is non-empty and ends inside the document, and each ends
   * before the next one starts.
   */
  predicate Scanned(lines: seq<string>, idx: nat, ts: seq<Table>)
  {
    && (forall i :: 0 <= i < |ts| ==>
          && idx <= ts[i].startLine < ts[i].endLine <= |lines|
          && Parser.IsTableRow(lines[ts[i].startLine])
          && !ts[i].frame.IsEmpty())
    && (forall i, j :: 0 <= i < j < |ts| ==> ts[i].endLine < ts[j].startLine)
  }

  lemma ScannedFirst(lines: seq<string>, idx: nat, ts: seq<Table>)
    requires Scanned(lines, idx, ts)
    ensures ts != [] ==> ts[0].startLine < |lines| && Parser.IsTableRow(lines[ts[0].startLine])
  {
  }

  lemma ScannedLater(lines: seq<string>, idx: nat, later: nat, ts: seq<Table>)
    requires idx <= later && Scanned(lines, later, ts)
    ensures Scanned(lines, idx, ts)
  {
  }

  /** A table found in a block that ends at `e` goes in front of the tables found from `e` on. */
  lemma ScannedPrepend(lines: seq<string>, idx: nat, found: seq<Table>, e: nat, rest: seq<Table>)
    requires Scanned(lines, e, rest) && idx <= e
    requires e < |lines| ==> !Parser.IsTableRow(lines[e])
    requires |found| <= 1
    requires forall i :: 0 <= i < |found| ==>
      && idx <= found[i].startLine < found[i].endLine <= e && e <= |lines|
      && Parser.IsTableRow(lines[found[i].startLine])
      && !found[i].frame.IsEmpty()
    ensures Scanned(lines, idx, found + rest)
  {
    var ts := found + rest;
    forall i | 0 <= i < |rest|
      ensures e < rest[i].startLine
    {
      var first := rest[i].startLine;
      assert first < |lines| && Parser.IsTableRow(lines[first]);
    }
    forall i, j | 0 <= i < j < |ts|
      ensures ts[i].endLine < ts[j].startLine
    {
      if i < |found| {
        assert j >= |found| && ts[j] == rest[j - |found|];
      } else {
        assert ts[i] == rest[i - |found|] && ts[j] == rest[j - |found|];
      }
    }
    forall i | 0 <= i < |ts|
      ensures idx <= ts[i].startLine < ts[i].endLine <= |lines|
      ensures Parser.IsTableRow(lines[ts[i].startLine]) && !ts[i].frame.IsEmpty()
    {
      if i >= |found| {
        assert ts[i] == rest[i - |found|];
      }
    }
  }

  /** The scan's tables: in document order, non-overlapping, each starting at a table row. */
  lemma {:induction false} CollectSpec(read: Reader, lines: seq<string>, idx: nat)
    requires ReadsBlocks(read)
    ensures Scanned(lines, idx, Collect(read, lines, idx))
    decreases |lines| - idx
  {
    if idx < |lines| {
      CollectStep(read, lines, idx);
      if Parser.IsTableRow(lines[idx]) {
        var t := read(lines, idx);
        var e := BlockEnd(lines, idx);
        BlockEndStep(lines, idx);
        BlockEndSpec(lines, idx);
        CollectSpec(read, lines, e);
        var found := if t.frame.IsEmpty() then [] else [t];
        ScannedPrepend(lines, idx, found, e, Collect(read, lines, e));
      } else {
        CollectSpec(read, lines, idx + 1);
        ScannedLater(lines, idx, idx + 1, Collect(read, lines, idx + 1));
      }
    }
  }

  /** A document without a single table row yields no tables. */
  lemma NoRowsNoTables(lines: seq<string>, detectCaptions: bool, skipSubHeaders: bool)
    requires forall k :: 0 <= k < |lines| ==> !Parser.IsTableRow(lines[k])
    ensures Collect(ReadOf(detectCaptions, skipSubHeaders), lines, 0) == []
  {
    var read := ReadOf(detectCaptions, skipSubHeaders);
    var ts := Collect(read, lines, 0);
    ReadOfReadsBlocks(detectCaptions, skipSubHeaders);
    CollectSpec(read, lines, 0);
    ScannedFirst(lines, 0, ts);
  }

  /**
   * A successful merge stage reports no errors and counts the tables the
   * merge removed; without merging it returns the scanned tables as they
   * are, and with merging it keeps every scanned row in order, starting at
   * the first scanned table and ending with the last.
   */
  lemma FinishSpec(tables: seq<Table>, strategy: Strategy)
    requires Finish(tables, strategy).Done?
    ensures var r := Finish(tables, strategy).value;
      && r.errors == []
      && r.mergedCount == |tables| - |r.tables| >= 0
      && (strategy == NoMerge ==> r.tables == tables)
      && (tables == [] ==> r.tables == [])
      && (tables != [] ==>
            && 1 <= |r.tables|
            && Merger.Sub(Merger.AllRows(tables), Merger.AllRows(r.tables))
            && r.tables[0].startLine == tables[0].startLine
            && r.tables[|r.tables| - 1].endLine == tables[|tables| - 1].endLine)
  {
    if strategy != NoMerge {
      var merged := Merger.MergeTablesSpec(tables, strategy);
      assert merged.Done? && Finish(tables, strategy).value == ExtractionResult(merged.value, [], |tables| - |merged.value|);
      if tables != [] {
        Merger.MergeTablesSpecProps(tables, strategy);
      }
    } else {
      Merger.SubRefl(Merger.AllRows(tables));
    }
  }

  /**
   * The merge stage of a table followed by its continuation: with the same
   * named labels and a continuation caption the two come out as one table
   * holding both tables' rows, and one merge is counted.
   */
  lemma ContinuationResult(t1: Table, t2: Table)
    requires t2.isContinuation && t2.caption.Some? && Trim(t2.caption.value) != []
    requires t1.frame.labels.Named? && t1.frame.labels == t2.frame.labels
    ensures Finish([t1, t2], IdenticalHeaders).Done?
    ensures var r := Finish([t1, t2], IdenticalHeaders).value;
      && |r.tables| == 1 && r.mergedCount == 1 && r.errors == []
      && r.tables[0].RowCount() == t1.RowCount() + t2.RowCount()
      && r.tables[0].caption == t1.caption
  {
    Merger.ContinuationMerges(t1, t2);
  }

  /** A document in which no line is a table row yields no tables, no errors and nothing merged. */
  lemma TablelessText(text: string, strategy: Strategy, detectCaptions: bool, skipSubHeaders: bool)
    requires forall k :: 0 <= k < |SplitOn(text, '\n')| ==> !Parser.IsTableRow(SplitOn(text, '\n')[k])
    ensures Extraction(text, strategy, detectCaptions, skipSubHeaders) == Done(ExtractionResult([], [], 0))
  {
    NoRowsNoTables(SplitOn(text, '\n'), detectCaptions, skipSubHeaders);
    ExtractionOf(text, strategy, detectCaptions, skipSubHeaders, []);
  }

  /** The empty document gives the empty result. */
  lemma EmptyText(text: string, strategy: Strategy, detectCaptions: bool, skipSubHeaders: bool)
    requires text == []
    ensures Extraction(text, strategy, detectCaptions, skipSubHeaders) == Done(EmptyResult())
  {
    assert SplitOn(text, '\n') == [[]];
    assert Trim([]) == [];
    TablelessText(text, strategy, detectCaptions, skipSubHeaders);
  }

  // ---------------------------------------------------------------------------
  // Proof helpers
  // ---------------------------------------------------------------------------

  /* Regrouping a concatenation, for the scan loop; no property of the package. */
  lemma AppendTables(a: seq<Table>, b: seq<Table>, c: seq<Table>)
    ensures (a + b) + c == a + (b + c)
  {
  }
}
