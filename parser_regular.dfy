/**
 * The package's alternate row rules: a separator test that needs no outer
 * pipes and ignores blank cells, a sub-header test on already parsed
 * cells, and a caption search that gives up at the first line that is
 * neither blank, a horizontal rule, nor a caption. Its table-row test and
 * its row splitting are literally those of `Parser` and are used from there.
 */
module ParserRegular {
  import opened Wrappers
  import opened Text
  import Numbers
  import Parser

  // ---------------------------------------------------------------------
  // Filtering
  // ---------------------------------------------------------------------

  /** `[c for c in cells if keep(c)]`. */
  function Select(keep: string -> bool, cells: seq<string>): (r: seq<string>)
    ensures |r| <= |cells|
    ensures forall k :: 0 <= k < |r| ==> keep(r[k])
    decreases |cells|
  {
    if cells == [] then []
    else (if keep(cells[0]) then [cells[0]] else []) + Select(keep, cells[1..])
  }

  /** Selecting from two parts selects from each in turn. */
  lemma {:induction false} SelectAppend(keep: string -> bool, a: seq<string>, b: seq<string>)
    ensures Select(keep, a + b) == Select(keep, a) + Select(keep, b)
    decreases |a|
  {
    if a == [] {
      assert a + b == b;
    } else {
      var h := if keep(a[0]) then [a[0]] else [];
      assert (a + b)[0] == a[0] && (a + b)[1..] == a[1..] + b;
      assert Select(keep, a + b) == h + Select(keep, a[1..] + b);
      SelectAppend(keep, a[1..], b);
      assert h + (Select(keep, a[1..]) + Select(keep, b)) == (h + Select(keep, a[1..])) + Select(keep, b);
    }
  }

  /** Cells that are all kept come out as they are, in order. */
  lemma {:induction false} SelectAll(keep: string -> bool, cells: seq<string>)
    requires forall k :: 0 <= k < |cells| ==> keep(cells[k])
    ensures Select(keep, cells) == cells
    decreases |cells|
  {
    if cells != [] {
      SelectAll(keep, cells[1..]);
      assert [cells[0]] + cells[1..] == cells;
    }
  }

  /** Cells that are all dropped leave nothing. */
  lemma {:induction false} SelectNone(keep: string -> bool, cells: seq<string>)
    requires forall k :: 0 <= k < |cells| ==> !keep(cells[k])
    ensures Select(keep, cells) == []
    decreases |cells|
  {
    if cells != [] {
      SelectNone(keep, cells[1..]);
    }
  }

  // ---------------------------------------------------------------------
  // Separator rows
  // ---------------------------------------------------------------------

  predicate Present(c: string)
  {
    c != []
  }

  /** `[c.strip() for c in pieces if c.strip()]`: the stripped pieces that are not blank. */
  function NonBlank(pieces: seq<string>): (r: seq<string>)
    ensures |r| <= |pieces|
    ensures forall k :: 0 <= k < |r| ==> r[k] != []
  {
    Select(Present, Parser.TrimAll(pieces))
  }

  /**
   * `is_separator_row`: the stripped line holds a pipe and a dash, and its
   * pieces between pipes, blank ones dropped, are all separator cells.
   */
  predicate IsSeparatorRow(line: string)
  {
    var s := Trim(line);
    var cells := NonBlank(SplitOn(s, '|'));
    s != [] && '|' in s && '-' in s && cells != []
    && forall k :: 0 <= k < |cells| ==> Parser.SeparatorCell(cells[k])
  }

  lemma NonBlankAppend(a: seq<string>, b: seq<string>)
    ensures NonBlank(a + b) == NonBlank(a) + NonBlank(b)
  {
    var t, ta, tb := Parser.TrimAll(a + b), Parser.TrimAll(a), Parser.TrimAll(b);
    forall k | 0 <= k < |t|
      ensures t[k] == (ta + tb)[k]
    {
      if k < |a| {
        assert (a + b)[k] == a[k];
      } else {
        assert (a + b)[k] == b[k - |a|];
      }
    }
    assert t == ta + tb;
    SelectAppend(Present, Parser.TrimAll(a), Parser.TrimAll(b));
  }

  /** With no blank piece, dropping blanks only strips. */
  lemma NonBlankOfVisible(ps: seq<string>)
    requires forall k :: 0 <= k < |ps| ==> Trim(ps[k]) != []
    ensures NonBlank(ps) == Parser.TrimAll(ps)
  {
    SelectAll(Present, Parser.TrimAll(ps));
  }

  lemma SeparatorCellHasDash(c: string)
    requires Parser.SeparatorCell(c)
    ensures '-' in c
  {
    var left, n, right := Parser.ShapeOfSeparatorCell(c);
    assert c[|Parser.ColonIf(left)|] == '-';
  }

  /** A stripped row of one character is never a separator row for `Parser`. */
  lemma LonePipeNotSeparator(line: string)
    ensures |Trim(line)| == 1 ==> !Parser.IsSeparatorRow(line)
  {
    var s := Trim(line);
    if |s| == 1 && Parser.IsTableRow(line) {
      assert s[1..] == [];
      assert Parser.Inner(line) == [];
      assert SplitOn([], '|') == [[]];
      var cells := Parser.ParseTableRow(line);
      assert cells[0] == Trim([]) && Trim([]) == [];
      assert !Parser.SeparatorCell(Trim(cells[0]));
    }
  }

  /** A separator row of the wrapped form `|...|` has its dash inside the line. */
  lemma DashOfSeparator(line: string, j: string)
    requires Parser.IsSeparatorRow(line)
    requires |Trim(line)| >= 2 && j == Trim(line)[1..|Trim(line)| - 1] && Parser.Inner(line) == j
    ensures '-' in Trim(line)
  {
    var s := Trim(line);
    var ps := SplitOn(j, '|');
    var cells := Parser.ParseTableRow(line);
    Parser.ParsedCells(line);
    assert Trim(cells[0]) == cells[0] && cells[0] == Trim(ps[0]);
    SeparatorCellHasDash(cells[0]);
    if '-' !in s {
      forall i | 0 <= i < |j|
        ensures j[i] != '-'
      {
        assert j[i] == s[i + 1];
      }
      SplitOnKeepsAbsent(j, '|', '-');
      TrimKeepsAbsent(ps[0], '-');
    }
  }

  /**
   * Every separator row of `Parser` is one here: splitting the whole line
   * only adds the two blank pieces outside the outer pipes, which are dropped.
   */
  lemma ParserSeparatorIsRegular(line: string)
    requires Parser.IsSeparatorRow(line)
    ensures IsSeparatorRow(line)
  {
    var s := Trim(line);
    LonePipeNotSeparator(line);
    var j := s[1..|s| - 1];
    assert s[1..][..|s| - 2] == j;
    assert Parser.Inner(line) == j;
    SplitOfPiped(s, j);
    SeparatorCellsVisible(line, j);
    SeparatorCellsTrimmed(line);
    DashOfSeparator(line, j);
  }

  /** The cells of a separator row are separator cells as they stand. */
  lemma SeparatorCellsTrimmed(line: string)
    requires Parser.IsSeparatorRow(line)
    ensures var cells := Parser.ParseTableRow(line);
      cells != [] && forall k :: 0 <= k < |cells| ==> Parser.SeparatorCell(cells[k])
  {
    Parser.ParsedCells(line);
  }

  /** Splitting a line enclosed in pipes adds one empty piece at each end. */
  lemma SplitOfPiped(s: string, j: string)
    requires |s| >= 2 && s[0] == '|' && s[|s| - 1] == '|' && j == s[1..|s| - 1]
    ensures SplitOn(s, '|') == [[]] + (SplitOn(j, '|') + [[]])
  {
    assert s == [] + ['|'] + (j + ['|']);
    SplitOnPrefix([], '|', j + ['|']);
    SplitOnTrailing(j, '|');
  }

  /** The cells of a separator row are all visible, so dropping blank pieces keeps exactly them. */
  lemma SeparatorCellsVisible(line: string, j: string)
    requires Parser.IsSeparatorRow(line) && Parser.Inner(line) == j
    ensures NonBlank([[]] + (SplitOn(j, '|') + [[]])) == Parser.ParseTableRow(line)
  {
    var ps := SplitOn(j, '|');
    var cells := Parser.ParseTableRow(line);
    Parser.ParsedCells(line);
    forall k | 0 <= k < |ps|
      ensures Trim(ps[k]) != []
    {
      assert cells[k] == Trim(ps[k]) && Trim(cells[k]) == cells[k];
    }
    NonBlankOfVisible(ps);
    NonBlankAppend(ps, [[]]);
    NonBlankAppend([[]], ps + [[]]);
  }

  /** A line without a dash is never a separator row. */
  lemma NoDashNoSeparator(line: string)
    requires '-' !in line
    ensures !IsSeparatorRow(line)
  {
    TrimKeepsAbsent(line, '-');
  }

  /** Single dashes are separator cells. */
  lemma DashCell()
    ensures Parser.SeparatorCell("-") && NonBlank(["-"]) == ["-"]
  {
    Parser.SeparatorCellOfShape(false, 1, false);
    assert Parser.ColonIf(false) + Parser.Dashes(1) + Parser.ColonIf(false) == "-";
    TrimOfTrimmed("-");
  }

  /** The outer pipes are optional here: `"-|-"` is a separator row... */
  lemma OpenSeparatorExample()
    ensures IsSeparatorRow("-|-")
  {
    TrimOfTrimmed("-|-");
    assert "-|-" == "-" + ['|'] + "-";
    SplitOnPrefix("-", '|', "-");
    SplitOnAbsent("-", '|');
    DashCell();
    NonBlankAppend(["-"], ["-"]);
    assert ["-"] + ["-"] == ["-", "-"];
  }

  /** ...though not for `Parser`, which wants a pipe at each end. */
  lemma OpenSeparatorNotParser()
    ensures !Parser.IsSeparatorRow("-|-")
  {
    TrimOfTrimmed("-|-");
  }

  /** Blank pieces between pipes are ignored here, wherever they stand... */
  lemma BlankPieceIgnored(a: seq<string>, p: string, b: seq<string>)
    requires Trim(p) == []
    ensures NonBlank(a + [p] + b) == NonBlank(a + b)
  {
    var single := [p];
    assert single[0] == p && single[1..] == [];
    assert NonBlank(single) == [];
    NonBlankAppend(a + single, b);
    NonBlankAppend(a, single);
    NonBlankAppend(a, b);
    assert NonBlank(a) + [] == NonBlank(a);
  }

  /** ...while for `Parser` a blank cell is no separator cell, so `"|-||-|"` is not a separator row. */
  lemma BlankCellNotParser(line: string)
    requires line == "|-||-|"
    ensures !Parser.IsSeparatorRow(line)
  {
    var ps: seq<string> := ["-", [], "-"];
    BlankCellLiterals(ps);
    BlankNotCell();
    Parser.ParseOfJoined(ps, line);
    var cells := Parser.ParseTableRow(line);
    assert cells[1] == Trim(ps[1]) == [];
    assert !Parser.SeparatorCell(Trim(cells[1]));
  }

  lemma BlankCellLiterals(ps: seq<string>)
    requires ps == ["-", [], "-"]
    ensures |ps| == 3 && ps[1] == [] && forall k :: 0 <= k < |ps| ==> '|' !in ps[k]
    ensures "|-||-|" == "|" + Join(ps, "|") + "|"
  {
    assert ps[1..] == [[], "-"] && ps[1..][1..] == ["-"];
    assert Join(ps[1..][1..], "|") == "-";
    assert Join(ps[1..], "|") == [] + "|" + "-";
    assert Join(ps, "|") == "-" + "|" + "|-";
  }

  /** The examples of `is_separator_row`: a plain rule... */
  lemma PlainRuleExample(line: string)
    requires line == "| --- | --- |"
    ensures Parser.IsSeparatorRow(line) && IsSeparatorRow(line)
  {
    PlainRulePieces(line);
    ParserSeparatorIsRegular(line);
  }

  lemma PlainRulePieces(line: string)
    requires line == "| --- | --- |"
    ensures Parser.IsSeparatorRow(line)
  {
    Parser.SeparatorCellOfShape(false, 3, false);
    assert Parser.ColonIf(false) + Parser.Dashes(3) + Parser.ColonIf(false) == "---";
    TrimOfSpaced("---");
    PlainRuleLiterals();
    Parser.SeparatorRowOfTwo(line, " --- ", " --- ");
  }

  lemma PlainRuleLiterals()
    ensures "| --- | --- |" == "|" + (" --- " + "|" + " --- ") + "|"
    ensures " --- " == " " + "---" + " "
    ensures '|' !in " --- "
  {
  }

  /** ...a centred rule... */
  lemma CentredRuleExample(line: string)
    requires line == "| :--: | :--: |"
    ensures Parser.IsSeparatorRow(line) && IsSeparatorRow(line)
  {
    CentredRulePieces(line);
    ParserSeparatorIsRegular(line);
  }

  lemma CentredRulePieces(line: string)
    requires line == "| :--: | :--: |"
    ensures Parser.IsSeparatorRow(line)
  {
    Parser.SeparatorCellOfShape(true, 2, true);
    assert Parser.ColonIf(true) + Parser.Dashes(2) + Parser.ColonIf(true) == ":--:";
    TrimOfSpaced(":--:");
    CentredRuleLiterals();
    Parser.SeparatorRowOfTwo(line, " :--: ", " :--: ");
  }

  lemma CentredRuleLiterals()
    ensures "| :--: | :--: |" == "|" + (" :--: " + "|" + " :--: ") + "|"
    ensures " :--: " == " " + ":--:" + " "
    ensures '|' !in " :--: "
  {
  }

  /** ...and a text row, which is not a separator row. */
  lemma TextRowExample(line: string)
    requires line == "| Data | More |"
    ensures !IsSeparatorRow(line)
  {
    TextRowLiteral();
    NoDashNoSeparator(line);
  }

  lemma TextRowLiteral()
    ensures '-' !in "| Data | More |"
  {
  }

  // ---------------------------------------------------------------------
  // Sub-header rows
  // ---------------------------------------------------------------------

  /** `c.strip()` is not empty. */
  predicate Visible(cell: string)
  {
    Trim(cell) != []
  }

  /** `non_empty = [c for c in cells if c.strip()]`: the cells with visible text, as they are. */
  function Filled(cells: seq<string>): (r: seq<string>)
    ensures |r| <= |cells|
  {
    Select(Visible, cells)
  }

  /** The length bound on a sub-header label. */
  const LabelLimit: nat := 20

  /** Four digits from index `i` on. */
  predicate FourDigitsAt(s: string, i: nat)
    requires i + 4 <= |s|
  {
    IsDigit(s[i]) && IsDigit(s[i + 1]) && IsDigit(s[i + 2]) && IsDigit(s[i + 3])
  }

  /** `re.search(r'\d{4}', cell)`: four digits in a row somewhere in the cell. */
  predicate HasFourDigits(s: string)
  {
    exists i: nat :: i + 4 <= |s| && FourDigitsAt(s, i)
  }

  /** A digit, a period and a digit from index `i` on. */
  predicate DecimalAt(s: string, i: nat)
    requires i + 3 <= |s|
  {
    IsDigit(s[i]) && s[i + 1] == '.' && IsDigit(s[i + 2])
  }

  /** `re.search(r'\d+\.\d+', cell)`: a digit, a period and a digit in a row somewhere in the cell. */
  predicate HasDecimal(s: string)
  {
    exists i: nat :: i + 3 <= |s| && DecimalAt(s, i)
  }

  /** A cell that reads as a sub-header label: short, with no year-like run and no decimal number. */
  predicate IsLabel(cell: string)
  {
    |cell| < LabelLimit && !HasFourDigits(cell) && !HasDecimal(cell)
  }

  /**
   * `is_sub_header_row(cells, header_cells)` as a value: a non-empty row
   * whose blank share `1 - len(non_empty) / len(cells)` exceeds one half,
   * and whose visible cells are all labels.
   */
  predicate SubHeaderRow(cells: seq<string>)
  {
    var filled := Filled(cells);
    cells != [] && 2 * |filled| < |cells| && forall k :: 0 <= k < |filled| ==> IsLabel(filled[k])
  }

  /** `is_sub_header_row`: the label loop with its early `return False`; the header cells are not consulted. */
  method IsSubHeaderRow(cells: seq<string>, headerCells: seq<string>) returns (r: bool)
    ensures r == SubHeaderRow(cells)
  {
    if cells == [] {
      return false;
    }
    var nonEmpty := Filled(cells);
    if 2 * |nonEmpty| < |cells| {
      var i := 0;
      while i < |nonEmpty|
        invariant 0 <= i <= |nonEmpty|
        invariant forall k :: 0 <= k < i ==> IsLabel(nonEmpty[k])
      {
        if !IsLabel(nonEmpty[i]) {
          return false;
        }
        i := i + 1;
      }
      return true;
    }
    return false;
  }

  /** Every cell is either visible or counted blank by `Parser.EmptyCount`. */
  lemma {:induction false} FilledCount(cells: seq<string>)
    ensures |Filled(cells)| + Parser.EmptyCount(cells) == |cells|
    decreases |cells|
  {
    if cells != [] {
      FilledCount(cells[1..]);
      assert Filled(cells) == (if Visible(cells[0]) then [cells[0]] else []) + Filled(cells[1..]);
    }
  }

  /** A non-empty row of blank cells is a sub-header. */
  lemma AllBlankIsSubHeader(cells: seq<string>)
    requires cells != [] && forall k :: 0 <= k < |cells| ==> Trim(cells[k]) == []
    ensures SubHeaderRow(cells)
  {
    FilledCount(cells);
    Parser.EmptyCountAll(cells);
  }

  /**
   * A row that `Parser` takes for a sub-header (at least seven tenths blank)
   * also passes the blank-share test here, which asks only for more than half;
   * so with label-like visible cells it is a sub-header here too.
   */
  lemma ParserSubHeaderIsRegular(line: string)
    requires Parser.IsSubHeaderRow(line, Parser.SubHeaderNum, Parser.SubHeaderDen)
    requires forall k :: 0 <= k < |Filled(Parser.ParseTableRow(line))| ==> IsLabel(Filled(Parser.ParseTableRow(line))[k])
    ensures SubHeaderRow(Parser.ParseTableRow(line))
  {
    var cells := Parser.ParseTableRow(line);
    FilledCount(cells);
    assert 10 * Parser.EmptyCount(cells) >= 7 * |cells|;
  }

  /** The example of `is_sub_header_row`: two blanks of five are only 0.4 of the row, so it is not a sub-header. */
  lemma SubHeaderDocExample(cells: seq<string>)
    requires cells == ["", "", "Early", "Late", "Both"]
    ensures !SubHeaderRow(cells)
  {
    var blanks: seq<string> := ["", ""];
    var labels := ["Early", "Late", "Both"];
    SubHeaderLiterals();
    LabelsVisible(labels);
    SelectNone(Visible, blanks);
    SelectAll(Visible, labels);
    SelectAppend(Visible, blanks, labels);
  }

  lemma SubHeaderLiterals()
    ensures ["", ""] + ["Early", "Late", "Both"] == ["", "", "Early", "Late", "Both"]
    ensures forall k :: 0 <= k < |["", ""]| ==> !Visible(["", ""][k])
  {
  }

  lemma LabelsVisible(labels: seq<string>)
    requires labels == ["Early", "Late", "Both"]
    ensures forall k :: 0 <= k < |labels| ==> Visible(labels[k])
  {
    TrimOfTrimmed("Early");
    TrimOfTrimmed("Late");
    TrimOfTrimmed("Both");
    assert labels[0] == "Early" && labels[1] == "Late" && labels[2] == "Both";
  }

  // ---------------------------------------------------------------------
  // Captions
  // ---------------------------------------------------------------------

  /*
   * The three caption patterns are matched against a stripped line, which
   * never ends with a line break; so their `$` only matches at the very end,
   * and `\s*(.*)$` holds of a tail exactly when no line break is left once
   * its leading whitespace is gone. Every choice the patterns leave open
   * (how many digits, whether to take the `[.:]`, how much whitespace) is
   * decided by the first greedy one, as any other choice asks for more.
   */

  /** `\s*(.*)$` on the rest of a stripped line. */
  predicate TailOk(r: string)
  {
    '\n' !in DropSpaces(r)
  }

  /** `[.:]?`. */
  function SkipSep(r: string): (t: string)
    ensures t == r || (|r| > 0 && t == r[1..])
  {
    if |r| > 0 && (r[0] == '.' || r[0] == ':') then r[1..] else r
  }

  /** `\s*(\d+)`: what follows the table number, when there is one. */
  function AfterNumber(s: string): (r: Option<string>)
    ensures r.Some? ==> |r.value| < |s|
  {
    var a := DropSpaces(s);
    var d := Parser.DigitRun(a);
    if d == 0 then None else Some(a[d..])
  }

  /** `^(?:Table|TABLE)\s*(\d+)[.:]?\s*(.*)$`, ignoring case. */
  predicate PlainCaption(line: string)
  {
    StartsWithCi(line, "table")
    && match AfterNumber(line[5..])
       case None => false
       case Some(r) => TailOk(SkipSep(r))
  }

  /** The first `)` at index `i` or later. */
  function CloseAt(s: string, i: nat): (j: Option<nat>)
    ensures j.Some? ==> i <= j.value < |s| && s[j.value] == ')' && forall k :: i <= k < j.value ==> s[k] != ')'
    ensures j.None? ==> forall k :: i <= k < |s| ==> s[k] != ')'
    decreases |s| - i
  {
    if i >= |s| then None else if s[i] == ')' then Some(i) else CloseAt(s, i + 1)
  }

  /** `^(?:Table|TABLE)\s*(\d+)\s*\(([^)]+)\)\s*(.*)$`, ignoring case. */
  predicate ParenCaption(line: string)
  {
    StartsWithCi(line, "table")
    && match AfterNumber(line[5..])
       case None => false
       case Some(r) =>
         var b := DropSpaces(r);
         |b| >= 2 && b[0] == '(' && b[1] != ')'
         && match CloseAt(b, 1)
            case None => false
            case Some(p) => TailOk(b[p + 1..])
  }

  /** `^\*\*(?:Table|TABLE)\s*(\d+)[.:]?\s*(.*)\*\*$`, ignoring case. */
  predicate BoldCaption(line: string)
  {
    |line| >= 7 && line[..2] == "**" && StartsWithCi(line[2..], "table")
    && match AfterNumber(line[7..])
       case None => false
       case Some(r) => |r| >= 2 && r[|r| - 2..] == "**" && TailOk(SkipSep(r[..|r| - 2]))
  }

  /** One of the three caption patterns matches. */
  predicate MatchesCaption(line: string)
  {
    PlainCaption(line) || ParenCaption(line) || BoldCaption(line)
  }

  /** `line.startswith('---') and '|' not in line`: a horizontal rule. */
  predicate IsRule(line: string)
  {
    |line| >= 3 && line[..3] == "---" && '|' !in line
  }

  /** A line the search passes over: blank once stripped, or a horizontal rule. */
  predicate Passed(raw: string)
  {
    var line := Trim(raw);
    line == [] || IsRule(line)
  }

  /** What the search makes of one line: pass over it, return it as the caption, or give up. */
  datatype Verdict = Skip | Hit(caption: string) | Stop

  function Judge(raw: string): (v: Verdict)
    ensures v.Skip? <==> Passed(raw)
    ensures v.Hit? <==> !Passed(raw) && MatchesCaption(Trim(raw))
    ensures v.Hit? ==> v.caption == Trim(raw)
  {
    var line := Trim(raw);
    if line == [] || IsRule(line) then Skip
    else if MatchesCaption(line) then Hit(line)
    else Stop
  }

  /** The line nearest above line `hi` and not below line `lo` that `pass` does not pass over. */
  function Nearest(pass: string -> bool, lines: seq<string>, hi: nat, lo: nat): (r: Option<nat>)
    requires lo <= hi <= |lines|
    ensures r.Some? ==> lo <= r.value < hi && !pass(lines[r.value])
    ensures r.Some? ==> forall k :: r.value < k < hi ==> pass(lines[k])
    ensures r.None? ==> forall k :: lo <= k < hi ==> pass(lines[k])
    decreases hi - lo
  {
    if hi == lo then None
    else if pass(lines[hi - 1]) then Nearest(pass, lines, hi - 1, lo)
    else Some(hi - 1)
  }

  /** The first line of the window: `max(0, table_start_line - max_lines_before)`. */
  function WindowStart(tableStart: nat, maxLinesBefore: int): nat
  {
    if tableStart - maxLinesBefore > 0 then tableStart - maxLinesBefore else 0
  }

  /**
   * `detect_caption(lines, table_start_line, max_lines_before)` as a value:
   * the nearest line of the window that is neither blank nor a rule decides
   * alone, giving its caption if it is one and nothing otherwise.
   */
  function CaptionSearch(lines: seq<string>, tableStart: nat, maxLinesBefore: int): (r: (Option<string>, bool))
    requires tableStart <= |lines|
    ensures r.0.None? ==> !r.1
    ensures r.0.Some? ==> MatchesCaption(r.0.value) && r.1 == Parser.HasContinuationMarker(r.0.value)
    ensures r.0.Some? ==> exists k :: WindowStart(tableStart, maxLinesBefore) <= k < tableStart && r.0.value == Trim(lines[k])
  {
    var lo := WindowStart(tableStart, maxLinesBefore);
    if lo >= tableStart then (None, false)
    else
      match Nearest(Passed, lines, tableStart, lo)
      case None => (None, false)
      case Some(j) =>
        match Judge(lines[j])
        case Hit(c) => (Some(c), Parser.HasContinuationMarker(c))
        case _ => (None, false)
  }

  /** The default `max_lines_before`. */
  const MaxLinesBefore: int := 5

  /**
   * `detect_caption`: the reverse walk over the window finds the nearest line
   * that is neither blank nor a rule, and the pattern loop decides on it.
   */
  method DetectCaption(lines: seq<string>, tableStart: nat, maxLinesBefore: int)
    returns (caption: Option<string>, isContinuation: bool)
    requires tableStart <= |lines|
    ensures (caption, isContinuation) == CaptionSearch(lines, tableStart, maxLinesBefore)
  {
    var searchStart := WindowStart(tableStart, maxLinesBefore);
    if searchStart >= tableStart {
      return None, false;
    }
    var nearest := FindNearest(lines, tableStart, searchStart);
    if nearest.None? {
      return None, false;
    }
    var line := Trim(lines[nearest.value]);
    var found := MatchAny(line);
    if found {
      return Some(line), Parser.HasContinuationMarker(line);
    }
    return None, false;
  }

  /** The reverse loop of `detect_caption`, from line `hi - 1` down to line `lo`, passing over blank lines and rules. */
  method FindNearest(lines: seq<string>, hi: nat, lo: nat) returns (nearest: Option<nat>)
    requires lo <= hi <= |lines|
    ensures nearest == Nearest(Passed, lines, hi, lo)
  {
    var i: int := hi - 1;
    while i >= lo
      invariant lo - 1 <= i < hi
      invariant Nearest(Passed, lines, hi, lo) == Nearest(Passed, lines, i + 1, lo)
      decreases i
    {
      var line := Trim(lines[i]);
      var passed := line == [] || IsRule(line);
      assert passed == Passed(lines[i]);
      NearestStep(Passed, lines, i, lo);
      if !passed {
        return Some(i);
      }
      i := i - 1;
    }
    return None;
  }

  /** One step of the reverse walk. */
  lemma NearestStep(pass: string -> bool, lines: seq<string>, i: nat, lo: nat)
    requires lo <= i < |lines|
    ensures pass(lines[i]) ==> Nearest(pass, lines, i + 1, lo) == Nearest(pass, lines, i, lo)
    ensures !pass(lines[i]) ==> Nearest(pass, lines, i + 1, lo) == Some(i)
  {
  }

  /** The pattern loop of `detect_caption`: whether any of the three patterns matches the stripped line. */
  method MatchAny(line: string) returns (found: bool)
    ensures found == MatchesCaption(line)
  {
    var patterns: seq<string -> bool> := [PlainCaption, ParenCaption, BoldCaption];
    assert patterns[0] == PlainCaption && patterns[1] == ParenCaption && patterns[2] == BoldCaption;
    var j := 0;
    while j < |patterns|
      invariant 0 <= j <= |patterns|
      invariant forall k :: 0 <= k < j ==> !patterns[k](line)
    {
      if patterns[j](line) {
        return true;
      }
      j := j + 1;
    }
    assert !patterns[0](line) && !patterns[1](line) && !patterns[2](line);
    return false;
  }

  /** Any line of the window that the search does not pass over, with only passed lines below it, is the nearest one. */
  lemma {:induction false} NearestIs(pass: string -> bool, lines: seq<string>, hi: nat, lo: nat, j: nat)
    requires lo <= j < hi <= |lines|
    requires !pass(lines[j])
    requires forall k :: j < k < hi ==> pass(lines[k])
    ensures Nearest(pass, lines, hi, lo) == Some(j)
    decreases hi - j
  {
    if hi - 1 > j {
      assert pass(lines[hi - 1]);
      NearestIs(pass, lines, hi - 1, lo, j);
    }
  }

  /** Only the lines of the window are read. */
  lemma {:induction false} NearestLocal(pass: string -> bool, lines: seq<string>, other: seq<string>, hi: nat, lo: nat)
    requires lo <= hi <= |lines| && hi <= |other|
    requires forall k :: lo <= k < hi ==> lines[k] == other[k]
    ensures Nearest(pass, lines, hi, lo) == Nearest(pass, other, hi, lo)
    decreases hi - lo
  {
    if hi > lo {
      NearestLocal(pass, lines, other, hi - 1, lo);
    }
  }

  /** The nearest caption wins, whatever captions stand above it. */
  lemma FoundCaption(lines: seq<string>, tableStart: nat, maxLinesBefore: int, j: nat)
    requires tableStart <= |lines| && WindowStart(tableStart, maxLinesBefore) <= j < tableStart
    requires Judge(lines[j]).Hit?
    requires forall k :: j < k < tableStart ==> Passed(lines[k])
    ensures CaptionSearch(lines, tableStart, maxLinesBefore)
      == (Some(Trim(lines[j])), Parser.HasContinuationMarker(Trim(lines[j])))
  {
    NearestIs(Passed, lines, tableStart, WindowStart(tableStart, maxLinesBefore), j);
  }

  /** A text line between a caption and the table hides the caption. */
  lemma TextHidesCaption(lines: seq<string>, tableStart: nat, maxLinesBefore: int, j: nat)
    requires tableStart <= |lines| && WindowStart(tableStart, maxLinesBefore) <= j < tableStart
    requires Judge(lines[j]).Stop?
    requires forall k :: j < k < tableStart ==> Passed(lines[k])
    ensures CaptionSearch(lines, tableStart, maxLinesBefore) == (None, false)
  {
    NearestIs(Passed, lines, tableStart, WindowStart(tableStart, maxLinesBefore), j);
  }

  /** Lines outside the window do not change the caption. */
  lemma CaptionLocal(lines: seq<string>, other: seq<string>, tableStart: nat, maxLinesBefore: int)
    requires tableStart <= |lines| && tableStart <= |other|
    requires forall k :: WindowStart(tableStart, maxLinesBefore) <= k < tableStart ==> lines[k] == other[k]
    ensures CaptionSearch(lines, tableStart, maxLinesBefore) == CaptionSearch(other, tableStart, maxLinesBefore)
  {
    var lo := WindowStart(tableStart, maxLinesBefore);
    if lo < tableStart {
      NearestLocal(Passed, lines, other, tableStart, lo);
      var n := Nearest(Passed, lines, tableStart, lo);
      if n.Some? {
        assert lines[n.value] == other[n.value];
      }
    }
  }

  // ---------------------------------------------------------------------
  // Captions, line by line
  // ---------------------------------------------------------------------

  /** `\s*(\d+)` on blanks and a run of digits gives what follows the run. */
  lemma AfterNumberOf(ws: string, num: string, rest: string)
    requires Blank(ws) && |num| >= 1 && Numbers.AllDigits(num) && (rest == [] || !IsDigit(rest[0]))
    ensures AfterNumber(ws + (num + rest)) == Some(rest)
  {
    DropSpacesOfBlankPrefix(ws, num + rest);
    assert (num + rest)[0] == num[0];
    DropSpacesOfVisible(num + rest);
    Parser.DigitRunOfDigits(num, rest);
    assert (num + rest)[|num|..] == rest;
  }

  /** `\s*(.*)$` holds of a tail without a line break, whether or not a `[.:]` is taken first. */
  lemma TailOfLine(r: string)
    requires '\n' !in r
    ensures TailOk(r) && TailOk(SkipSep(r))
  {
    assert forall k :: LeadCount(r) <= k < |r| ==> DropSpaces(r)[k - LeadCount(r)] == r[k];
    var t := SkipSep(r);
    assert forall k :: LeadCount(t) <= k < |t| ==> DropSpaces(t)[k - LeadCount(t)] == t[k];
  }

  /** `Table`, blanks, a number and a line of text match the first caption pattern. */
  lemma PlainCaptionOf(s: string, kw: string, ws: string, num: string, rest: string)
    requires |kw| == 5 && Lower(kw) == "table"
    requires Blank(ws) && |num| >= 1 && Numbers.AllDigits(num) && (rest == [] || !IsDigit(rest[0])) && '\n' !in rest
    requires s == kw + (ws + (num + rest))
    ensures PlainCaption(s)
  {
    assert s[..5] == kw && s[5..] == ws + (num + rest);
    AfterNumberOf(ws, num, rest);
    TailOfLine(rest);
  }

  /** `Table`, blanks, a number and a closed parenthesis match the second caption pattern. */
  lemma ParenCaptionOf(s: string, kw: string, ws: string, num: string, ws2: string, inner: string)
    requires |kw| == 5 && Lower(kw) == "table"
    requires Blank(ws) && |num| >= 1 && Numbers.AllDigits(num) && Blank(ws2)
    requires inner != [] && ')' !in inner
    requires s == kw + (ws + (num + (ws2 + ("(" + (inner + ")")))))
    ensures ParenCaption(s)
  {
    var b := "(" + (inner + ")");
    var rest := ws2 + b;
    assert s[..5] == kw && s[5..] == ws + (num + rest);
    assert rest == [] || !IsDigit(rest[0]);
    AfterNumberOf(ws, num, rest);
    DropSpacesOfBlankPrefix(ws2, b);
    DropSpacesOfVisible(b);
    CloseOfParen(b, inner);
    assert b[|inner| + 2..] == [];
    TailOfLine([]);
  }

  /** The `)` closing a parenthesis without one inside is the first after the `(`. */
  lemma CloseOfParen(b: string, inner: string)
    requires b == "(" + (inner + ")") && inner != [] && ')' !in inner
    ensures b[0] == '(' && b[1] != ')' && CloseAt(b, 1) == Some(|inner| + 1)
  {
    assert b[1] == inner[0] && b[|inner| + 1] == ')';
    assert forall k :: 1 <= k <= |inner| ==> b[k] == inner[k - 1];
  }

  /** `**`, `Table`, blanks, a number, a line of text and `**` match the third caption pattern. */
  lemma BoldCaptionOf(s: string, kw: string, ws: string, num: string, rest: string)
    requires |kw| == 5 && Lower(kw) == "table"
    requires Blank(ws) && |num| >= 1 && Numbers.AllDigits(num) && (rest == [] || !IsDigit(rest[0])) && '\n' !in rest
    requires s == "**" + (kw + (ws + (num + (rest + "**"))))
    ensures BoldCaption(s)
  {
    var r := rest + "**";
    assert s[..2] == "**" && s[2..][..5] == kw && s[7..] == ws + (num + r);
    assert r == [] || !IsDigit(r[0]);
    AfterNumberOf(ws, num, r);
    assert r[|r| - 2..] == "**" && r[..|r| - 2] == rest;
    TailOfLine(rest);
  }

  /** A caption standing alone above a table is found, with its continuation flag. */
  lemma CaptionAboveTable(line: string)
    requires line != [] && Trim(line) == line && !IsRule(line) && MatchesCaption(line)
    ensures CaptionSearch([line], 1, MaxLinesBefore) == (Some(line), Parser.HasContinuationMarker(line))
  {
    assert Judge([line][0]).Hit?;
    FoundCaption([line], 1, MaxLinesBefore, 0);
  }

  /** `"Table 1. Title"` above a table is its caption, and not a continuation. */
  lemma PlainCaptionExample(line: string)
    requires line == "Table" + (" " + ("1" + ". Title"))
    ensures CaptionSearch([line], 1, MaxLinesBefore) == (Some(line), false)
  {
    CaptionLiterals();
    PlainCaptionOf(line, "Table", " ", "1", ". Title");
    PlainCaptionLine(line);
    Parser.UnmarkedWithoutC(line);
    CaptionAboveTable(line);
  }

  lemma PlainCaptionLine(line: string)
    requires line == "Table" + (" " + ("1" + ". Title"))
    ensures line != [] && Trim(line) == line && !IsRule(line) && 'c' !in line && 'C' !in line
  {
    TrimOfTrimmed(line);
  }

  /** `"Table 1 (Continued)"` above a table is its caption, and a continuation. */
  lemma ParenCaptionExample(line: string)
    requires line == "Table" + (" " + ("1" + (" " + ("(" + ("Continued" + ")")))))
    ensures CaptionSearch([line], 1, MaxLinesBefore) == (Some(line), true)
  {
    CaptionLiterals();
    ParenCaptionOf(line, "Table", " ", "1", " ", "Continued");
    ParenCaptionLine(line);
    CaptionAboveTable(line);
  }

  lemma ParenCaptionLine(line: string)
    requires line == "Table" + (" " + ("1" + (" " + ("(" + ("Continued" + ")")))))
    ensures line != [] && Trim(line) == line && !IsRule(line)
    ensures Parser.HasContinuationMarker(line)
  {
    TrimOfTrimmed(line);
    ParenCaptionMarked(line);
  }

  lemma ParenCaptionMarked(line: string)
    requires line == "Table" + (" " + ("1" + (" " + ("(" + ("Continued" + ")")))))
    ensures Parser.HasContinuationMarker(line)
  {
    var p := "(" + ("Continued" + ")");
    assert p == "(" + ("Cont" + "inued)");
    Parser.LowerTable();
    Parser.MarkerIn(p, "(", "Cont", "inued)");
    Parser.MarkerOfSuffix(" " + p, " ", p);
    Parser.MarkerOfSuffix("1" + (" " + p), "1", " " + p);
    Parser.MarkerOfSuffix(" " + ("1" + (" " + p)), " ", "1" + (" " + p));
    Parser.MarkerOfSuffix(line, "Table", " " + ("1" + (" " + p)));
  }

  /** `"**Table 1. Title**"` above a table is its caption, emphasis kept, and not a continuation. */
  lemma BoldCaptionExample(line: string)
    requires line == "**" + ("Table" + (" " + ("1" + (". Title" + "**"))))
    ensures CaptionSearch([line], 1, MaxLinesBefore) == (Some(line), false)
  {
    CaptionLiterals();
    BoldCaptionOf(line, "Table", " ", "1", ". Title");
    BoldCaptionLine(line);
    Parser.UnmarkedWithoutC(line);
    CaptionAboveTable(line);
  }

  lemma BoldCaptionLine(line: string)
    requires line == "**" + ("Table" + (" " + ("1" + (". Title" + "**"))))
    ensures line != [] && Trim(line) == line && !IsRule(line) && 'c' !in line && 'C' !in line
  {
    TrimOfTrimmed(line);
  }

  lemma CaptionLiterals()
    ensures Lower("Table") == "table" && Blank(" ") && Numbers.AllDigits("1")
    ensures !IsDigit(". Title"[0]) && '\n' !in ". Title" && ')' !in "Continued"
  {
  }

  // ---------------------------------------------------------------------
  // Proof helpers
  // ---------------------------------------------------------------------

  /*
   * A fact about the empty cell used by the examples above; it states no
   * property of the package. Likewise every `…Pieces` and `…Literals`
   * lemma beside an example only lists facts about that example's string
   * literals, so that the example's proof can work on named parts.
   */

  lemma BlankNotCell()
    ensures Trim([]) == [] && !Parser.SeparatorCell([])
  {
  }
}
