/**
 * Row classification and splitting for markdown pipe tables, and the
 * backwards search for a caption line above a table.
 */
module Parser {
  import opened Wrappers
  import opened Text
  import opened Numbers

  // ---------------------------------------------------------------------
  // Rows
  // ---------------------------------------------------------------------

  /** `is_table_row`: the stripped line starts and ends with a pipe. */
  predicate IsTableRow(line: string)
  {
    var s := Trim(line);
    |s| > 0 && s[0] == '|' && s[|s| - 1] == '|'
  }

  /** At most one leading and one trailing pipe removed. */
  function StripPipes(s: string): string
  {
    var a := if |s| > 0 && s[0] == '|' then s[1..] else s;
    if |a| > 0 && a[|a| - 1] == '|' then a[..|a| - 1] else a
  }

  /** The stripped line without its outer pipes: the text that is split into cells. */
  function Inner(line: string): string
  {
    StripPipes(Trim(line))
  }

  lemma StripPipesOfWrapped(j: string)
    ensures StripPipes("|" + j + "|") == j
  {
    var s := "|" + j + "|";
    assert s[0] == '|';
    assert s[1..] == j + "|";
    assert (j + "|")[..|j|] == j;
  }

  /** `[cell.strip() for cell in cells]`. */
  function TrimAll(cells: seq<string>): (r: seq<string>)
    ensures |r| == |cells|
    ensures forall k :: 0 <= k < |r| ==> r[k] == Trim(cells[k])
  {
    seq(|cells|, k requires 0 <= k < |cells| => Trim(cells[k]))
  }

  /** `parse_table_row`: split the inner part on every pipe and strip each piece. */
  function ParseTableRow(line: string): (cells: seq<string>)
    ensures |cells| == Count(Inner(line), '|') + 1
  {
    TrimAll(SplitOn(Inner(line), '|'))
  }

  /** The pieces are never empty as a list, and each of them is stripped and pipe-free. */
  lemma ParsedCells(line: string)
    ensures |ParseTableRow(line)| >= 1
    ensures forall k :: 0 <= k < |ParseTableRow(line)| ==>
      '|' !in ParseTableRow(line)[k] && Trim(ParseTableRow(line)[k]) == ParseTableRow(line)[k]
  {
    var ps := SplitOn(Inner(line), '|');
    forall k | 0 <= k < |ps|
      ensures '|' !in Trim(ps[k]) && Trim(Trim(ps[k])) == Trim(ps[k])
    {
      TrimKeepsAbsent(ps[k], '|');
      TrimTwice(ps[k]);
    }
  }

  /** A row of length two or more with pipes at both ends has one cell fewer than it has pipes. */
  lemma CellCountOfRow(line: string)
    requires IsTableRow(line) && |Trim(line)| >= 2
    ensures |ParseTableRow(line)| == Count(Trim(line), '|') - 1
  {
    var s := Trim(line);
    var mid := s[1..|s| - 1];
    assert Inner(line) == mid;
    assert s == [s[0]] + mid + [s[|s| - 1]];
    CountAppend([s[0]] + mid, [s[|s| - 1]], '|');
    CountAppend([s[0]], mid, '|');
  }

  /** Splitting a pipe-joined line: `|p0|p1|...|` gives the stripped pieces back. */
  lemma ParseOfJoined(ps: seq<string>, line: string)
    requires |ps| >= 1
    requires forall k :: 0 <= k < |ps| ==> '|' !in ps[k]
    requires line == "|" + Join(ps, "|") + "|"
    ensures IsTableRow(line)
    ensures ParseTableRow(line) == TrimAll(ps)
  {
    var j := Join(ps, "|");
    assert line[0] == '|' && line[|line| - 1] == '|';
    TrimOfTrimmed(line);
    StripPipesOfWrapped(j);
    assert Inner(line) == j;
    SplitOfJoin(ps, '|');
  }

  /** A row rendered as `| c0 | c1 | ... |`. */
  function RenderRow(cells: seq<string>): string
  {
    "|" + Join(Padded(cells), "|") + "|"
  }

  function Padded(cells: seq<string>): (r: seq<string>)
    ensures |r| == |cells|
    ensures forall k :: 0 <= k < |r| ==> r[k] == " " + cells[k] + " "
  {
    seq(|cells|, k requires 0 <= k < |cells| => " " + cells[k] + " ")
  }

  /** A cell that `parse_table_row` can reproduce: stripped and pipe-free. */
  predicate CleanCell(c: string)
  {
    '|' !in c && (c == [] || (!IsSpace(c[0]) && !IsSpace(c[|c| - 1])))
  }

  /** Round trip: parsing a rendered row gives back its cells. */
  lemma ParseOfRender(cells: seq<string>)
    requires |cells| >= 1
    requires forall k :: 0 <= k < |cells| ==> CleanCell(cells[k])
    ensures ParseTableRow(RenderRow(cells)) == cells
  {
    var ps := Padded(cells);
    forall k | 0 <= k < |ps| ensures '|' !in ps[k] && Trim(ps[k]) == cells[k] {
      assert ps[k] == " " + cells[k] + " ";
      TrimOfPadded(" ", cells[k], " ");
    }
    ParseOfJoined(ps, RenderRow(cells));
  }

  /** The row-parsing example: `"| Name | Age | City |"` gives `["Name", "Age", "City"]`. */
  lemma ParseExample(line: string)
    requires line == "| Name | Age | City |"
    ensures ParseTableRow(line) == ["Name", "Age", "City"]
  {
    NameAgeCityPieces();
    NameAgeCityCells();
    ParseThree(line, " Name ", " Age ", " City ");
  }

  /** A line of three cells: `|p0|p1|p2|`. */
  lemma ParseThree(line: string, p0: string, p1: string, p2: string)
    requires '|' !in p0 && '|' !in p1 && '|' !in p2
    requires line == "|" + (p0 + "|" + (p1 + "|" + p2)) + "|"
    ensures ParseTableRow(line) == [Trim(p0), Trim(p1), Trim(p2)]
  {
    var ps := [p0, p1, p2];
    var qs := [p1, p2];
    assert ps[1..] == qs;
    assert qs[1..] == [p2];
    assert Join(qs, "|") == p1 + "|" + p2;
    assert Join(ps, "|") == p0 + "|" + (p1 + "|" + p2);
    ParseOfJoined(ps, line);
    var cells := ParseTableRow(line);
    assert |cells| == 3 && cells[0] == Trim(p0) && cells[1] == Trim(p1) && cells[2] == Trim(p2);
    ThreeItems(cells, Trim(p0), Trim(p1), Trim(p2));
  }

  lemma NameAgeCityPieces()
    ensures "| Name | Age | City |" == "|" + (" Name " + "|" + (" Age " + "|" + " City ")) + "|"
    ensures '|' !in " Name " && '|' !in " Age " && '|' !in " City "
    ensures " Name " == " " + "Name" + " " && " Age " == " " + "Age" + " " && " City " == " " + "City" + " "
  {
  }

  lemma NameAgeCityCells()
    ensures Trim(" " + "Name" + " ") == "Name" && Trim(" " + "Age" + " ") == "Age"
    ensures Trim(" " + "City" + " ") == "City"
  {
    TrimOfSpaced("Name");
    TrimOfSpaced("Age");
    TrimOfSpaced("City");
  }

  /** A lone pipe is a table row. */
  lemma LonePipeIsRow()
    ensures IsTableRow("|")
  {
    TrimOfTrimmed("|");
  }

  /** Whitespace around a line never changes whether it is a row. */
  lemma TableRowOfPadded(pre: string, core: string, post: string)
    requires Blank(pre) && Blank(post) && |core| >= 1 && core[0] == '|' && core[|core| - 1] == '|'
    ensures IsTableRow(pre + core + post)
  {
    TrimOfPadded(pre, core, post);
  }

  // ---------------------------------------------------------------------
  // Separator rows
  // ---------------------------------------------------------------------

  /** `_SEPARATOR_CELL_PATTERN`, `^:?-{1,}:?$`: an optional colon, one or more dashes, an optional colon. */
  predicate SeparatorCell(c: string)
  {
    var a := if |c| > 0 && c[0] == ':' then c[1..] else c;
    var b := if |a| > 0 && a[|a| - 1] == ':' then a[..|a| - 1] else a;
    |b| > 0 && forall k :: 0 <= k < |b| ==> b[k] == '-'
  }

  function ColonIf(b: bool): string { if b then ":" else "" }

  function Dashes(n: nat): (r: string)
    ensures |r| == n && forall k :: 0 <= k < n ==> r[k] == '-'
  {
    seq(n, k => '-')
  }

  /** Every alignment form `---`, `:---`, `---:`, `:---:` is a separator cell. */
  lemma SeparatorCellOfShape(left: bool, n: nat, right: bool)
    requires n >= 1
    ensures SeparatorCell(ColonIf(left) + Dashes(n) + ColonIf(right))
  {
    var c := ColonIf(left) + Dashes(n) + ColonIf(right);
    var a := if |c| > 0 && c[0] == ':' then c[1..] else c;
    assert a == Dashes(n) + ColonIf(right);
    var b := if |a| > 0 && a[|a| - 1] == ':' then a[..|a| - 1] else a;
    assert b == Dashes(n);
  }

  /** ...and a separator cell has one of those forms. */
  lemma ShapeOfSeparatorCell(c: string) returns (left: bool, n: nat, right: bool)
    requires SeparatorCell(c)
    ensures n >= 1 && c == ColonIf(left) + Dashes(n) + ColonIf(right)
  {
    left := |c| > 0 && c[0] == ':';
    var a := if left then c[1..] else c;
    right := |a| > 0 && a[|a| - 1] == ':';
    var b := if right then a[..|a| - 1] else a;
    n := |b|;
    assert b == Dashes(n);
    assert a == b + ColonIf(right);
    assert c == ColonIf(left) + a;
  }

  /** `is_separator_row`: a table row all of whose (stripped) cells are separator cells. */
  predicate IsSeparatorRow(line: string)
  {
    var cells := ParseTableRow(line);
    IsTableRow(line) && |cells| > 0 && forall k :: 0 <= k < |cells| ==> SeparatorCell(Trim(cells[k]))
  }

  /** A separator-free cell text cannot be a separator cell unless it is all dashes and colons. */
  lemma NotSeparatorCell(c: string, i: nat)
    requires i < |c| && c[i] != '-' && c[i] != ':'
    ensures !SeparatorCell(c)
  {
    if SeparatorCell(c) {
      var l, n, r := ShapeOfSeparatorCell(c);
      assert false;
    }
  }

  /** A line of two cells: `|p0|p1|`. */
  lemma ParseTwo(line: string, p0: string, p1: string)
    requires '|' !in p0 && '|' !in p1
    requires line == "|" + (p0 + "|" + p1) + "|"
    ensures IsTableRow(line)
    ensures ParseTableRow(line) == [Trim(p0), Trim(p1)]
  {
    var ps := [p0, p1];
    assert ps[1..] == [p1];
    assert Join(ps, "|") == p0 + "|" + p1;
    ParseOfJoined(ps, line);
    var cells := ParseTableRow(line);
    assert |cells| == 2 && cells[0] == Trim(p0) && cells[1] == Trim(p1);
    TwoItems(cells, Trim(p0), Trim(p1));
  }

  lemma SeparatorRowOfTwo(line: string, p0: string, p1: string)
    requires '|' !in p0 && '|' !in p1
    requires line == "|" + (p0 + "|" + p1) + "|"
    requires SeparatorCell(Trim(p0)) && SeparatorCell(Trim(p1))
    ensures IsSeparatorRow(line)
  {
    ParseTwo(line, p0, p1);
    TrimTwice(p0);
    TrimTwice(p1);
    var cells := ParseTableRow(line);
    assert cells[0] == Trim(p0) && cells[1] == Trim(p1);
    assert forall k :: 0 <= k < |cells| ==> SeparatorCell(Trim(cells[k]));
  }

  lemma NotSeparatorRowOfTwo(line: string, p0: string, p1: string)
    requires '|' !in p0 && '|' !in p1
    requires line == "|" + (p0 + "|" + p1) + "|"
    requires !SeparatorCell(Trim(Trim(p0)))
    ensures !IsSeparatorRow(line)
  {
    ParseTwo(line, p0, p1);
    assert ParseTableRow(line)[0] == Trim(p0);
  }

  /** `"|:--|--:|"`, from the test suite, is a separator row. */
  lemma AlignedSeparatorExample(line: string)
    requires line == "|:--|--:|"
    ensures IsSeparatorRow(line)
  {
    SeparatorCellOfShape(true, 2, false);
    SeparatorCellOfShape(false, 2, true);
    assert ColonIf(true) + Dashes(2) + ColonIf(false) == ":--";
    assert ColonIf(false) + Dashes(2) + ColonIf(true) == "--:";
    TrimOfTrimmed(":--");
    TrimOfTrimmed("--:");
    AlignedSeparatorPieces();
    SeparatorRowOfTwo(line, ":--", "--:");
  }

  /** `"|  ---  |  ---  |"`, from the test suite, is a separator row. */
  lemma SpacedSeparatorExample(line: string)
    requires line == "|  ---  |  ---  |"
    ensures IsSeparatorRow(line)
  {
    SeparatorCellOfShape(false, 3, false);
    assert ColonIf(false) + Dashes(3) + ColonIf(false) == "---";
    TrimOfPadded("  ", "---", "  ");
    SpacedSeparatorPieces();
    SeparatorRowOfTwo(line, "  ---  ", "  ---  ");
  }

  /** `"| --- Data | More --- |"`, from the test suite, is not a separator row. */
  lemma TextRowIsNotSeparator(line: string)
    requires line == "| --- Data | More --- |"
    ensures !IsSeparatorRow(line)
  {
    NotSeparatorCell("--- Data", 3);
    TrimOfTrimmed("--- Data");
    TrimOfSpaced("--- Data");
    TextRowPieces();
    NotSeparatorRowOfTwo(line, " --- Data ", " More --- ");
  }

  /** `"| 2021 | 45% |"`, from the test suite, is not a separator row. */
  lemma DataRowIsNotSeparator(line: string)
    requires line == "| 2021 | 45% |"
    ensures !IsSeparatorRow(line)
  {
    NotSeparatorCell("2021", 0);
    TrimOfTrimmed("2021");
    TrimOfSpaced("2021");
    DataRowPieces();
    NotSeparatorRowOfTwo(line, " 2021 ", " 45% ");
  }

  // The test lines above, cut at their pipes.
  lemma AlignedSeparatorPieces()
    ensures "|:--|--:|" == "|" + (":--" + "|" + "--:") + "|"
    ensures '|' !in ":--" && '|' !in "--:"
  {
  }

  lemma SpacedSeparatorPieces()
    ensures "|  ---  |  ---  |" == "|" + ("  ---  " + "|" + "  ---  ") + "|"
    ensures "  ---  " == "  " + "---" + "  "
    ensures '|' !in "  ---  "
  {
  }

  lemma TextRowPieces()
    ensures "| --- Data | More --- |" == "|" + (" --- Data " + "|" + " More --- ") + "|"
    ensures " --- Data " == " " + "--- Data" + " "
    ensures '|' !in " --- Data " && '|' !in " More --- "
  {
  }

  lemma DataRowPieces()
    ensures "| 2021 | 45% |" == "|" + (" 2021 " + "|" + " 45% ") + "|"
    ensures " 2021 " == " " + "2021" + " "
    ensures '|' !in " 2021 " && '|' !in " 45% "
  {
  }

  /** Text without pipes and the empty line are not separator rows. */
  lemma NonRowsAreNotSeparators()
    ensures !IsSeparatorRow("Not a table row")
    ensures !IsSeparatorRow("")
  {
    TrimOfTrimmed("Not a table row");
    TrimOfTrimmed("");
  }

  // ---------------------------------------------------------------------
  // Sub-header rows
  // ---------------------------------------------------------------------

  /** The number of cells that are blank after stripping. */
  function EmptyCount(cells: seq<string>): (n: nat)
    ensures n <= |cells|
  {
    if |cells| == 0 then 0 else (if Trim(cells[0]) == [] then 1 else 0) + EmptyCount(cells[1..])
  }

  /** The default threshold 0.7 of `is_sub_header_row`, as the fraction 7/10. */
  const SubHeaderNum: int := 7
  const SubHeaderDen: int := 10

  /**
   * `is_sub_header_row(line, threshold)` with `threshold == num / den`:
   * a table row whose share of blank cells reaches the threshold.
   */
  predicate IsSubHeaderRow(line: string, num: int, den: int)
    requires den > 0
  {
    var cells := ParseTableRow(line);
    IsTableRow(line) && |cells| > 0 && EmptyCount(cells) * den >= num * |cells|
  }

  lemma {:induction false} EmptyCountAll(cells: seq<string>)
    requires forall k :: 0 <= k < |cells| ==> Trim(cells[k]) == []
    ensures EmptyCount(cells) == |cells|
    decreases |cells|
  {
    if |cells| > 0 {
      EmptyCountAll(cells[1..]);
    }
  }

  lemma {:induction false} EmptyCountNone(cells: seq<string>)
    requires forall k :: 0 <= k < |cells| ==> Trim(cells[k]) != []
    ensures EmptyCount(cells) == 0
    decreases |cells|
  {
    if |cells| > 0 {
      EmptyCountNone(cells[1..]);
    }
  }

  /** A table row whose cells are all blank is a sub-header for every threshold up to 1. */
  lemma AllBlankIsSubHeader(line: string, num: int, den: int)
    requires den > 0 && num <= den
    requires IsTableRow(line)
    requires forall k :: 0 <= k < |ParseTableRow(line)| ==> ParseTableRow(line)[k] == []
    ensures IsSubHeaderRow(line, num, den)
  {
    var cells := ParseTableRow(line);
    EmptyCountAll(cells);
    MulMono(num, den, |cells|);
  }

  /** A row without a blank cell is never a sub-header at a positive threshold. */
  lemma NoBlankIsNoSubHeader(line: string, num: int, den: int)
    requires den > 0 && num > 0
    requires forall k :: 0 <= k < |ParseTableRow(line)| ==> ParseTableRow(line)[k] != []
    ensures !IsSubHeaderRow(line, num, den)
  {
    var cells := ParseTableRow(line);
    ParsedCells(line);
    EmptyCountNone(cells);
    MulPos(num, |cells|);
  }

  // ---------------------------------------------------------------------
  // Captions
  // ---------------------------------------------------------------------

  /** The two groups of the caption pattern: the table number and the stripped description. */
  datatype CaptionMatch = CaptionMatch(number: string, description: string)

  /** The four results of `detect_caption`: caption, continuation flag, table number, bare flag. */
  datatype CaptionInfo = CaptionInfo(
    caption: Option<string>,
    isContinuation: bool,
    tableNumber: Option<string>,
    isBare: bool)

  /** `(None, False, None, False)`. */
  const NoCaption: CaptionInfo := CaptionInfo(None, false, None, false)

  /**
   * The characters `[a-z]` matches under `re.IGNORECASE`: the ASCII letters
   * and the four non-ASCII letters whose simple case folding lands in `a-z`.
   */
  predicate IsCaseLetter(c: char)
  {
    IsLetter(c) || c == '\U{130}' || c == '\U{131}' || c == '\U{17f}' || c == '\U{212a}'
  }

  /** `[.:\-–—]`: period, colon, hyphen, en dash, em dash. */
  predicate IsCaptionSep(c: char)
  {
    c == '.' || c == ':' || c == '-' || c == '\U{2013}' || c == '\U{2014}'
  }

  /** The length of the keyword `table` or `tbl\.?` at the start, ignoring case. */
  function KeywordLength(s: string): (r: Option<nat>)
    ensures r.Some? ==> r.value <= |s|
  {
    if StartsWithCi(s, "table") then Some(5)
    else if StartsWithCi(s, "tbl") then Some(if |s| > 3 && s[3] == '.' then 4 else 3)
    else None
  }

  /** The number of leading ASCII digits. */
  function DigitRun(s: string): (n: nat)
    ensures n <= |s|
    ensures forall k :: 0 <= k < n ==> IsDigit(s[k])
    ensures n == |s| || !IsDigit(s[n])
  {
    if |s| > 0 && IsDigit(s[0]) then 1 + DigitRun(s[1..]) else 0
  }

  /** What `.*` matches: everything up to the first line break. */
  function LineRest(s: string): (r: string)
    ensures |r| <= |s| && r == s[..|r|] && '\n' !in r
    ensures |r| == |s| || s[|r|] == '\n'
  {
    if |s| == 0 || s[0] == '\n' then [] else [s[0]] + LineRest(s[1..])
  }

  /** Group 2 after the number, stripped: `\s*[.:\-–—]?\s*(.*)`. */
  function Description(rest: string): string
  {
    var a := DropSpaces(rest);
    var b := if |a| > 0 && IsCaptionSep(a[0]) then a[1..] else a;
    Trim(LineRest(DropSpaces(b)))
  }

  /** The end of `\d+[a-z]?` at the start of `d`, if there is a digit there. */
  function NumberEnd(d: string): (m: nat)
    ensures m <= |d|
  {
    var n := DigitRun(d);
    if n < |d| && IsCaseLetter(d[n]) then n + 1 else n
  }

  /** The pattern from the number group on: `(\d+[a-z]?)\s*[.:\-–—]?\s*(.*)`. */
  function MatchNumber(d: string): Option<CaptionMatch>
  {
    if DigitRun(d) == 0 then None
    else Some(CaptionMatch(d[..NumberEnd(d)], Description(d[NumberEnd(d)..])))
  }

  /**
   * `caption_pattern.match`, `^(?:table|tbl\.?)\s*(\d+[a-z]?)\s*[.:\-–—]?\s*(.*)`
   * under `re.IGNORECASE`. Every later part of the pattern can match the
   * empty string, so the first greedy choice of each part is the match.
   */
  function MatchCaption(s: string): Option<CaptionMatch>
  {
    match KeywordLength(s)
    case None => None
    case Some(k) => MatchNumber(DropSpaces(s[k..]))
  }

  /** The `table`/`tbl` keyword is mandatory. */
  lemma MatchNeedsKeyword(s: string)
    requires MatchCaption(s).Some?
    ensures StartsWithCi(s, "table") || StartsWithCi(s, "tbl")
  {
  }

  /** The number group is one or more digits, then at most one letter. */
  lemma MatchNumberShape(s: string)
    requires MatchCaption(s).Some?
    ensures IsTableNumber(MatchCaption(s).value.number)
  {
    var d := DropSpaces(s[KeywordLength(s).value..]);
    assert MatchCaption(s) == MatchNumber(d);
    NumberShape(d);
  }

  /** One or more digits, then at most one letter. */
  predicate IsTableNumber(num: string)
  {
    && |num| >= 1 && IsDigit(num[0])
    && (forall k :: 0 <= k < |num| - 1 ==> IsDigit(num[k]))
    && (IsDigit(num[|num| - 1]) || IsCaseLetter(num[|num| - 1]))
  }

  lemma NumberShape(d: string)
    requires DigitRun(d) > 0
    ensures IsTableNumber(d[..NumberEnd(d)])
  {
    var n := DigitRun(d);
    var m := NumberEnd(d);
    var num := d[..m];
    if m == n + 1 {
      assert num[|num| - 1] == d[n];
    } else {
      assert num[|num| - 1] == d[n - 1];
    }
  }

  /** The description is stripped and holds no line break. */
  lemma MatchDescriptionShape(s: string)
    requires MatchCaption(s).Some?
    ensures var desc := MatchCaption(s).value.description;
      '\n' !in desc && Trim(desc) == desc
  {
    var d := DropSpaces(s[KeywordLength(s).value..]);
    assert MatchCaption(s) == MatchNumber(d);
    DescriptionShape(d[NumberEnd(d)..]);
  }

  lemma DescriptionShape(rest: string)
    ensures '\n' !in Description(rest) && Trim(Description(rest)) == Description(rest)
  {
    var a := DropSpaces(rest);
    var b := if |a| > 0 && IsCaptionSep(a[0]) then a[1..] else a;
    var line := LineRest(DropSpaces(b));
    TrimKeepsAbsent(line, '\n');
    TrimTwice(line);
  }

  lemma {:induction false} DigitRunOfDigits(num: string, rest: string)
    requires AllDigits(num)
    requires rest == [] || !IsDigit(rest[0])
    ensures DigitRun(num + rest) == |num|
    decreases |num|
  {
    if |num| > 0 {
      assert (num + rest)[0] == num[0];
      assert (num + rest)[1..] == num[1..] + rest;
      DigitRunOfDigits(num[1..], rest);
    } else {
      assert num + rest == rest;
    }
  }

  /** `Table` (any case), spaces, a number, then text that starts with neither a digit nor a letter. */
  lemma MatchOfTableCaption(s: string, kw: string, ws: string, num: string, rest: string)
    requires |kw| == 5 && Lower(kw) == "table"
    requires Blank(ws) && |num| >= 1 && AllDigits(num)
    requires rest == [] || (!IsDigit(rest[0]) && !IsCaseLetter(rest[0]))
    requires s == kw + (ws + (num + rest))
    ensures MatchCaption(s) == Some(CaptionMatch(num, Description(rest)))
  {
    var x := ws + (num + rest);
    assert s[..5] == kw && s[5..] == x;
    assert KeywordLength(s) == Some(5);
    DropSpacesOfBlankPrefix(ws, num + rest);
    assert (num + rest)[0] == num[0];
    DropSpacesOfVisible(num + rest);
    NumberOfDigits(num, rest);
  }

  lemma NumberOfDigits(num: string, rest: string)
    requires |num| >= 1 && AllDigits(num)
    requires rest == [] || (!IsDigit(rest[0]) && !IsCaseLetter(rest[0]))
    ensures MatchNumber(num + rest) == Some(CaptionMatch(num, Description(rest)))
  {
    var d := num + rest;
    assert rest != [] ==> d[|num|] == rest[0];
    DigitRunOfDigits(num, rest);
    assert NumberEnd(d) == |num|;
    assert d[..|num|] == num && d[|num|..] == rest;
  }

  /** A description that starts with a visible character other than a separator is kept whole. */
  lemma DescriptionOfText(ws: string, d: string)
    requires Blank(ws) && '\n' !in d
    requires d == [] || (!IsSpace(d[0]) && !IsCaptionSep(d[0]))
    ensures Description(ws + d) == Trim(d)
  {
    DropSpacesOfBlankPrefix(ws, d);
    DropSpacesOfVisible(d);
    LineRestOfLine(d);
  }

  /** One separator between blanks is dropped from the description. */
  lemma DescriptionOfSeparated(ws: string, c: char, ws2: string, d: string)
    requires Blank(ws) && IsCaptionSep(c) && Blank(ws2) && '\n' !in d
    requires d == [] || !IsSpace(d[0])
    ensures Description(ws + ([c] + (ws2 + d))) == Trim(d)
  {
    var a := [c] + (ws2 + d);
    DropSpacesOfBlankPrefix(ws, a);
    DropSpacesOfVisible(a);
    assert a[1..] == ws2 + d;
    assert Description(ws + a) == Trim(LineRest(DropSpaces(ws2 + d)));
    DescriptionTail(ws2, d);
  }

  /** The text after the separator: blanks dropped, the line kept, then stripped. */
  lemma DescriptionTail(ws2: string, d: string)
    requires Blank(ws2) && '\n' !in d && (d == [] || !IsSpace(d[0]))
    ensures Trim(LineRest(DropSpaces(ws2 + d))) == Trim(d)
  {
    DropSpacesOfBlankPrefix(ws2, d);
    DropSpacesOfVisible(d);
    LineRestOfLine(d);
  }

  lemma {:induction false} LineRestOfLine(d: string)
    requires '\n' !in d
    ensures LineRest(d) == d
  {
    var r := LineRest(d);
    if |r| < |d| {
      assert false;
    }
  }

  /** `line.replace("**", "").replace("__", "").replace("*", "").replace("_", "")`. */
  function StripEmphasis(line: string): string
  {
    Replace(Replace(Replace(Replace(line, "**", ""), "__", ""), "*", ""), "_", "")
  }

  /** The replacement chain deletes every `*` and every `_`, and nothing else. */
  lemma StripEmphasisRemoves(line: string)
    ensures StripEmphasis(line) == Remove(Remove(line, '*'), '_')
  {
    var a := Replace(line, "**", "");
    var b := Replace(a, "__", "");
    ReplaceCharByNothing(b, '*');
    ReplaceCharByNothing(Remove(b, '*'), '_');
    RemoveCommutes(b, '*', '_');
    RemoveAfterReplaceDouble(a, '_');
    RemoveCommutes(a, '_', '*');
    RemoveAfterReplaceDouble(line, '*');
  }

  /** `CONTINUATION_PATTERN.search`: every part around `cont` is optional, so this is "contains `cont`", ignoring case. */
  predicate HasContinuationMarker(s: string)
  {
    Contains(Lower(s), "cont")
  }

  /** A line without `c` or `C` is not marked. */
  lemma UnmarkedWithoutC(s: string)
    requires 'c' !in s && 'C' !in s
    ensures !HasContinuationMarker(s)
  {
    var l := Lower(s);
    forall i | 0 <= i < |l| ensures l[i] != 'c' {
      assert l[i] == LowerChar(s[i]);
    }
    ContainsFirstAbsent(l, "cont");
  }

  /** A line holding a piece that lowercases to `cont` is marked. */
  lemma MarkerIn(s: string, pre: string, m: string, post: string)
    requires s == pre + (m + post) && |m| == 4 && Lower(m) == "cont"
    ensures HasContinuationMarker(s)
  {
    assert s[|pre|..|pre| + 4] == m;
    MarkerAt(s, |pre|);
  }

  /** A marked suffix marks the whole line. */
  lemma MarkerOfSuffix(s: string, pre: string, rest: string)
    requires s == pre + rest && HasContinuationMarker(rest)
    ensures HasContinuationMarker(s)
  {
    assert Lower(s) == Lower(pre) + Lower(rest);
    ContainsSuffix(Lower(pre), Lower(rest), "cont");
  }

  lemma MarkerAt(s: string, i: nat)
    requires i + 4 <= |s| && Lower(s[i..i + 4]) == "cont"
    ensures HasContinuationMarker(s)
  {
    assert Lower(s)[i..i + 4] == Lower(s[i..i + 4]);
    ContainsAt(Lower(s), "cont", i);
  }

  /**
   * The decision `detect_caption` takes at one line: `None` when the line is
   * blank, a table row, or does not match once emphasis is stripped; the
   * four results otherwise, with the trimmed line (emphasis kept) as caption.
   */
  function CaptionOf(raw: string): (r: Option<CaptionInfo>)
    ensures r.Some? ==> r.value.caption == Some(Trim(raw)) && r.value.tableNumber.Some?
    ensures r.Some? ==> r.value.isContinuation == (r.value.isBare || HasContinuationMarker(Trim(StripEmphasis(Trim(raw)))))
  {
    var line := Trim(raw);
    if line == [] || IsTableRow(line) then None
    else
      var clean := Trim(StripEmphasis(line));
      match MatchCaption(clean)
      case None => None
      case Some(m) =>
        var bare := m.description == [];
        Some(CaptionInfo(Some(line), HasContinuationMarker(clean) || bare, Some(m.number), bare))
  }

  /** The decision at every line. */
  function Decisions(lines: seq<string>): (ds: seq<Option<CaptionInfo>>)
    ensures |ds| == |lines| && forall i :: 0 <= i < |ds| ==> ds[i] == CaptionOf(lines[i])
  {
    seq(|lines|, i requires 0 <= i < |lines| => CaptionOf(lines[i]))
  }

  /** The scan of indices `hi - 1` down to `lo`: the first line with a decision decides. */
  function Scan(ds: seq<Option<CaptionInfo>>, hi: nat, lo: nat): CaptionInfo
    requires lo <= hi <= |ds|
    decreases hi - lo
  {
    if hi == lo then NoCaption
    else match ds[hi - 1]
      case Some(info) => info
      case None => Scan(ds, hi - 1, lo)
  }

  /** `detect_caption(lines, start, lookback)` as a value: the window is `max(0, start - lookback) .. start - 1`. */
  function CaptionSearch(lines: seq<string>, start: nat, lookback: int): CaptionInfo
    requires start <= |lines|
  {
    var lo := if start - lookback > 0 then start - lookback else 0;
    if lo >= start then NoCaption else Scan(Decisions(lines), start, lo)
  }

  /** The default `lookback` of `detect_caption`. */
  const CaptionLookback: int := 5

  /** `detect_caption`: the reverse index loop with `continue` and early `return`. */
  method DetectCaption(lines: seq<string>, start: nat, lookback: int) returns (info: CaptionInfo)
    requires start <= |lines|
    ensures info == CaptionSearch(lines, start, lookback)
  {
    var lo := if start - lookback > 0 then start - lookback else 0;
    if lo >= start {
      return NoCaption;
    }
    ghost var ds := Decisions(lines);
    var i := start - 1;
    while i >= lo
      invariant lo - 1 <= i < start
      invariant Scan(ds, start, lo) == Scan(ds, i + 1, lo)
      decreases i
    {
      var found := CaptionOf(lines[i]);
      if found.Some? {
        assert ds[i] == found;
        return found.value;
      }
      i := i - 1;
    }
    return NoCaption;
  }

  /** The nearest line (scanning upwards) with a decision decides; blank lines, rows and other text above it do not matter. */
  lemma {:induction false} ScanNearest(ds: seq<Option<CaptionInfo>>, hi: nat, lo: nat, j: nat)
    requires lo <= j < hi <= |ds|
    requires ds[j].Some?
    requires forall k :: j < k < hi ==> ds[k].None?
    ensures Scan(ds, hi, lo) == ds[j].value
    decreases hi
  {
    if hi - 1 > j {
      ScanNearest(ds, hi - 1, lo, j);
    }
  }

  /** No caption is found exactly when no line of the window has a decision. */
  lemma {:induction false} ScanNone(ds: seq<Option<CaptionInfo>>, hi: nat, lo: nat)
    requires lo <= hi <= |ds|
    requires forall k :: 0 <= k < |ds| && ds[k].Some? ==> ds[k].value.caption.Some?
    ensures Scan(ds, hi, lo) == NoCaption <==> forall k :: lo <= k < hi ==> ds[k].None?
    decreases hi
  {
    if hi > lo {
      ScanNone(ds, hi - 1, lo);
    }
  }

  /** Only the decisions inside the window are read. */
  lemma {:induction false} ScanLocal(ds: seq<Option<CaptionInfo>>, other: seq<Option<CaptionInfo>>, hi: nat, lo: nat)
    requires lo <= hi <= |ds| && hi <= |other|
    requires forall k :: lo <= k < hi ==> ds[k] == other[k]
    ensures Scan(ds, hi, lo) == Scan(other, hi, lo)
    decreases hi
  {
    if hi > lo {
      ScanLocal(ds, other, hi - 1, lo);
    }
  }

  /** `detect_caption` returns the decision of the nearest deciding line in the window. */
  lemma CaptionSearchFinds(lines: seq<string>, start: nat, lookback: int, j: nat)
    requires start <= |lines| && j < start && j >= start - lookback
    requires CaptionOf(lines[j]).Some?
    requires forall k :: j < k < start ==> CaptionOf(lines[k]).None?
    ensures CaptionSearch(lines, start, lookback) == CaptionOf(lines[j]).value
  {
    var lo := if start - lookback > 0 then start - lookback else 0;
    ScanNearest(Decisions(lines), start, lo, j);
  }

  /** `detect_caption` gives `(None, False, None, False)` exactly when no line of the window decides. */
  lemma CaptionSearchNone(lines: seq<string>, start: nat, lookback: int)
    requires start <= |lines|
    ensures CaptionSearch(lines, start, lookback) == NoCaption <==>
      forall k :: 0 <= k < start && k >= start - lookback ==> CaptionOf(lines[k]).None?
  {
    var lo := if start - lookback > 0 then start - lookback else 0;
    if lo < start {
      ScanNone(Decisions(lines), start, lo);
    }
  }

  /** Only the lines inside the window are read. */
  lemma CaptionSearchLocal(lines: seq<string>, other: seq<string>, start: nat, lookback: int)
    requires start <= |lines| && start <= |other|
    requires forall k :: 0 <= k < start && k >= start - lookback ==> lines[k] == other[k]
    ensures CaptionSearch(lines, start, lookback) == CaptionSearch(other, start, lookback)
  {
    var lo := if start - lookback > 0 then start - lookback else 0;
    if lo < start {
      ScanLocal(Decisions(lines), Decisions(other), start, lo);
    }
  }

  /** A line that is neither blank nor a row is matched on its emphasis-free form. */
  lemma CaptionOfText(raw: string, clean: string, m: CaptionMatch)
    requires Trim(raw) == raw && raw != [] && raw[0] != '|'
    requires Trim(StripEmphasis(raw)) == clean && MatchCaption(clean) == Some(m)
    ensures CaptionOf(raw) == Some(CaptionInfo(Some(raw), HasContinuationMarker(clean) || m.description == [], Some(m.number), m.description == []))
  {
  }

  /** The keyword `table`, in any case, holds no space, pipe or emphasis mark. */
  lemma KeywordPlain(kw: string)
    requires |kw| == 5 && Lower(kw) == "table"
    ensures !IsSpace(kw[0]) && kw[0] != '|' && '*' !in kw && '_' !in kw
  {
    assert LowerChar(kw[0]) == 't';
    forall i | 0 <= i < 5
      ensures kw[i] != '*' && kw[i] != '_'
    {
      assert LowerChar(kw[i]) == "table"[i];
    }
  }

  /**
   * What may follow the number of a caption written without emphasis:
   * nothing, or a text that starts with neither a digit nor a letter, ends
   * with a visible character and holds no `*` or `_`.
   */
  predicate CaptionRest(rest: string)
  {
    && (rest == [] || (!IsDigit(rest[0]) && !IsCaseLetter(rest[0]) && !IsSpace(rest[|rest| - 1])))
    && '*' !in rest && '_' !in rest
  }

  /**
   * A caption written without emphasis: keyword, spaces, number, rest. It is
   * kept trimmed as the caption, gives its number, and is bare (and then a
   * continuation) exactly when the rest describes nothing.
   */
  lemma PlainCaption(s: string, kw: string, ws: string, num: string, rest: string)
    requires |kw| == 5 && Lower(kw) == "table"
    requires Blank(ws) && |num| >= 1 && AllDigits(num)
    requires CaptionRest(rest)
    requires s == kw + (ws + (num + rest))
    ensures CaptionOf(s) == Some(CaptionInfo(Some(s), HasContinuationMarker(s) || Description(rest) == [], Some(num), Description(rest) == []))
  {
    KeywordPlain(kw);
    assert !IsSpace(num[|num| - 1]) && '*' !in num && '_' !in num;
    assert '*' !in ws && '_' !in ws;
    assert s[0] == kw[0];
    assert s[|s| - 1] == if rest == [] then num[|num| - 1] else rest[|rest| - 1];
    TrimOfTrimmed(s);
    StripEmphasisRemoves(s);
    RemoveAbsent(s, '*');
    RemoveAbsent(s, '_');
    MatchOfTableCaption(s, kw, ws, num, rest);
    CaptionOfText(s, s, CaptionMatch(num, Description(rest)));
  }

  /** Emphasis around a caption is deleted before matching. */
  lemma EmphasisOfBold(x: string)
    requires '*' !in x && '_' !in x
    ensures StripEmphasis("**" + x + "**") == x
  {
    var b := "**" + x + "**";
    StripEmphasisRemoves(b);
    assert Remove("*", '*') == [];
    assert Remove("**", '*') == [];
    RemoveAppend("**", x, '*');
    RemoveAppend("**" + x, "**", '*');
    RemoveAbsent(x, '*');
    assert Remove(b, '*') == x;
    RemoveAbsent(x, '_');
  }

  /**
   * Wrapping a line in `**` changes only the caption text, which keeps the
   * emphasis: the same line decides the same way.
   */
  lemma EmphasisedCaption(x: string)
    requires x != [] && x[0] != '|' && Trim(x) == x
    requires '*' !in x && '_' !in x
    ensures CaptionOf(x).None? ==> CaptionOf("**" + x + "**").None?
    ensures CaptionOf(x).Some? ==> CaptionOf("**" + x + "**") == Some(CaptionOf(x).value.(caption := Some("**" + x + "**")))
  {
    EmphasisFacts(x);
  }

  lemma EmphasisFacts(x: string)
    requires '*' !in x && '_' !in x
    ensures Trim("**" + x + "**") == "**" + x + "**"
    ensures StripEmphasis("**" + x + "**") == x && StripEmphasis(x) == x
  {
    var b := "**" + x + "**";
    assert b[0] == '*' && b[|b| - 1] == '*';
    TrimOfTrimmed(b);
    EmphasisOfBold(x);
    StripEmphasisRemoves(x);
    RemoveAbsent(x, '*');
    RemoveAbsent(x, '_');
  }

  lemma LowerTable()
    ensures Lower("Table") == "table" && Lower("Cont") == "cont"
  {
  }

  /** `"Table 3 (Continued)"` is a numbered continuation caption that is not bare. */
  lemma ContinuedCaptionExample(line: string)
    requires line == "Table" + (" " + ("3" + " (Continued)"))
    ensures CaptionOf(line) == Some(CaptionInfo(Some(line), true, Some("3"), false))
  {
    ContinuedRest();
    LowerTable();
    PlainCaption(line, "Table", " ", "3", " (Continued)");
    ContinuedDescription();
    ContinuedMarked(line);
  }

  lemma ContinuedDescription()
    ensures Description(" (Continued)") == "(Continued)"
  {
    ContinuedPieces();
    TrimOfTrimmed("(Continued)");
    DescriptionOfText(" ", "(Continued)");
  }

  lemma ContinuedMarked(line: string)
    requires line == "Table" + (" " + ("3" + " (Continued)"))
    ensures HasContinuationMarker(line)
  {
    ContinuedPieces();
    LowerTable();
    MarkerIn(" (Continued)", " (", "Cont", "inued)");
    MarkerOfSuffix("3" + " (Continued)", "3", " (Continued)");
    MarkerOfSuffix(" " + ("3" + " (Continued)"), " ", "3" + " (Continued)");
    MarkerOfSuffix(line, "Table", " " + ("3" + " (Continued)"));
  }

  lemma ContinuedRest()
    ensures CaptionRest(" (Continued)")
  {
  }

  lemma ContinuedPieces()
    ensures '*' !in " (Continued)" && '_' !in " (Continued)" && '\n' !in "(Continued)"
    ensures " (Continued)" == " " + "(Continued)"
    ensures " (Continued)" == " (" + ("Cont" + "inued)")
  {
  }

  /** `"Table 3. (Continued)"`, the caption of a continued table, is a numbered continuation caption. */
  lemma DottedContinuedExample(line: string)
    requires line == "Table" + (" " + ("3" + ". (Continued)"))
    ensures CaptionOf(line) == Some(CaptionInfo(Some(line), true, Some("3"), false))
  {
    DottedRest();
    LowerTable();
    PlainCaption(line, "Table", " ", "3", ". (Continued)");
    DottedDescription();
    DottedMarked(line);
  }

  lemma DottedDescription()
    ensures Description(". (Continued)") == "(Continued)"
  {
    DottedPieces();
    ContinuedPieces();
    TrimOfTrimmed("(Continued)");
    DescriptionOfSeparated([], '.', " ", "(Continued)");
  }

  lemma DottedMarked(line: string)
    requires line == "Table" + (" " + ("3" + ". (Continued)"))
    ensures HasContinuationMarker(line)
  {
    DottedPieces();
    LowerTable();
    MarkerIn(". (Continued)", ". (", "Cont", "inued)");
    MarkerOfSuffix("3" + ". (Continued)", "3", ". (Continued)");
    MarkerOfSuffix(" " + ("3" + ". (Continued)"), " ", "3" + ". (Continued)");
    MarkerOfSuffix(line, "Table", " " + ("3" + ". (Continued)"));
  }

  lemma DottedRest()
    ensures CaptionRest(". (Continued)")
  {
  }

  lemma DottedPieces()
    ensures ". (Continued)" == [] + (['.'] + (" " + "(Continued)"))
    ensures ". (Continued)" == ". (" + ("Cont" + "inued)")
  {
  }

  /** `"**Table 2. Study Results**"` keeps its emphasis in the caption and has number 2 and a description. */
  lemma BoldCaptionExample(line: string, x: string)
    requires x == "Table" + (" " + ("2" + ". Study Results"))
    requires line == "**" + x + "**"
    ensures CaptionOf(line) == Some(CaptionInfo(Some(line), false, Some("2"), false))
  {
    BoldTitle(x);
    BoldTitlePlain(x);
    EmphasisedCaption(x);
    BoldWithoutC(x);
    UnmarkedWithoutC(x);
  }

  lemma BoldWithoutC(x: string)
    requires x == "Table" + (" " + ("2" + ". Study Results"))
    ensures 'c' !in x && 'C' !in x
  {
  }

  /** Without its emphasis, the same caption. */
  lemma BoldTitle(x: string)
    requires x == "Table" + (" " + ("2" + ". Study Results"))
    ensures CaptionOf(x) == Some(CaptionInfo(Some(x), HasContinuationMarker(x), Some("2"), false))
  {
    BoldRest();
    LowerTable();
    PlainCaption(x, "Table", " ", "2", ". Study Results");
    BoldDescription();
  }

  lemma BoldRest()
    ensures CaptionRest(". Study Results")
  {
  }

  lemma BoldTitlePlain(x: string)
    requires x == "Table" + (" " + ("2" + ". Study Results"))
    ensures x[0] == 'T' && Trim(x) == x && '*' !in x && '_' !in x
  {
    BoldRest();
    assert x[|x| - 1] == 's';
    TrimOfTrimmed(x);
  }

  lemma BoldDescription()
    ensures Description(". Study Results") == "Study Results"
  {
    BoldPieces();
    TrimOfTrimmed("Study Results");
    DescriptionOfSeparated([], '.', " ", "Study Results");
  }

  lemma BoldPieces()
    ensures ". Study Results" == [] + (['.'] + (" " + "Study Results"))
    ensures '*' !in ". Study Results" && '_' !in ". Study Results" && '\n' !in "Study Results"
  {
  }

  /** A bare `"Table 2"` is marked bare, and therefore a continuation. */
  lemma BareCaptionExample(line: string)
    requires line == "Table" + (" " + ("2" + []))
    ensures CaptionOf(line) == Some(CaptionInfo(Some(line), true, Some("2"), true))
  {
    LowerTable();
    assert Description([]) == [];
    PlainCaption(line, "Table", " ", "2", []);
  }

  // ---------------------------------------------------------------------
  // Proof helpers
  // ---------------------------------------------------------------------

  /*
   * The lemmas below state no property of the package: they spell out a
   * list by its items for the examples above. Likewise every `…Pieces`
   * lemma beside an example only lists facts about that example's string
   * literals, so that the example's proof can work on named parts.
   */

  lemma TwoItems(xs: seq<string>, a: string, b: string)
    requires |xs| == 2 && xs[0] == a && xs[1] == b
    ensures xs == [a, b]
  {
  }

  lemma ThreeItems(xs: seq<string>, a: string, b: string, c: string)
    requires |xs| == 3 && xs[0] == a && xs[1] == b && xs[2] == c
    ensures xs == [a, b, c]
  {
  }
}
