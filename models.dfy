/**
 * The record types of the extractor: the merge strategy, a table frame
 * (pandas `DataFrame` reduced to column labels and rows of text cells),
 * one extracted table with its metadata, and the result of a whole
 * extraction run.
 */
module Models {
  import opened Wrappers
  import opened Numbers

  /** `TableMergeStrategy`: `NONE`, `IDENTICAL_HEADERS`, `COMPATIBLE_COLUMNS`. */
  datatype Strategy = NoMerge | IdenticalHeaders | CompatibleColumns

  /**
   * The column labels of a frame: the header texts of a table that has a
   * separator row, or pandas' default integer labels `0 .. count-1` of a
   * frame built from bare rows.
   */
  datatype Labels = Named(names: seq<string>) | Positional(count: nat)
  {
    function Width(): nat
    {
      match this
      case Named(names) => |names|
      case Positional(count) => count
    }
  }

  /** `str(label)` for every label, in column order (`[str(c) for c in df.columns]`). */
  function LabelTexts(labels: Labels): (r: seq<string>)
    ensures |r| == labels.Width()
    ensures labels.Named? ==> r == labels.names
    ensures labels.Positional? ==> forall i :: 0 <= i < |r| ==> r[i] == Decimal(i)
  {
    match labels
    case Named(names) => names
    case Positional(count) => seq(count, i requires 0 <= i < count => Decimal(i))
  }

  /** A `DataFrame`: column labels and rows of cell texts. */
  datatype Frame = Frame(labels: Labels, rows: seq<seq<string>>)
  {
    /** `df.empty`: no rows or no columns. */
    predicate IsEmpty()
    {
      |rows| == 0 || labels.Width() == 0
    }

    /** Every row holds exactly one cell per column. */
    predicate Rectangular()
    {
      forall i :: 0 <= i < |rows| ==> |rows[i]| == labels.Width()
    }
  }

  /** `pd.DataFrame()`. */
  const EmptyFrame: Frame := Frame(Named([]), [])

  /**
   * The two attributes the extractor attaches to a table it built from a
   * separated block (`_table_number`, `_is_bare_caption`); a table without
   * them (too short, no separator, or the product of a merge) has none.
   */
  datatype CaptionMeta = CaptionMeta(tableNumber: Option<string>, isBare: bool)

  /** `ExtractedTable`. */
  datatype Table = Table(
    frame: Frame,
    caption: Option<string>,
    startLine: nat,
    endLine: nat,
    rawMarkdown: string,
    isContinuation: bool,
    meta: Option<CaptionMeta>)
  {
    /** `column_count`: `len(df.columns)`. */
    function ColumnCount(): (n: nat)
      ensures n == |LabelTexts(frame.labels)|
    {
      frame.labels.Width()
    }

    /** `row_count`: `len(df)`. */
    function RowCount(): (n: nat)
      ensures n == |frame.rows|
    {
      |frame.rows|
    }
  }

  /** `ExtractedTable(dataframe=frame)`: every other field at its default. */
  function FromFrame(frame: Frame): (t: Table)
    ensures t.frame == frame && t.caption == None
    ensures t.startLine == 0 && t.endLine == 0
    ensures t.rawMarkdown == [] && !t.isContinuation && t.meta == None
  {
    Table(frame, None, 0, 0, [], false, None)
  }

  /** `ExtractionResult`. */
  datatype ExtractionResult = ExtractionResult(tables: seq<Table>, errors: seq<string>, mergedCount: int)
  {
    /** `len(result)`. */
    function Len(): (n: nat)
      ensures n == |tables|
    {
      |tables|
    }

    /** `result[index]`, with Python's negative indices; `None` is the `IndexError`. */
    function Get(index: int): (r: Option<Table>)
      ensures r.Some? <==> -|tables| <= index < |tables|
      ensures 0 <= index < |tables| ==> r == Some(tables[index])
      ensures -|tables| <= index < 0 ==> r == Some(tables[|tables| + index])
    {
      if 0 <= index < |tables| then Some(tables[index])
      else if -|tables| <= index < 0 then Some(tables[|tables| + index])
      else None
    }

    /** `iter(result)`: the tables in order. */
    function Iter(): (r: seq<Table>)
      ensures |r| == Len()
      ensures forall i :: 0 <= i < |r| ==> Get(i) == Some(r[i])
    {
      tables
    }

    /** `get_dataframes()`. */
    function GetDataframes(): (r: seq<Frame>)
      ensures |r| == |tables|
      ensures forall i :: 0 <= i < |r| ==> r[i] == tables[i].frame
    {
      seq(|tables|, i requires 0 <= i < |tables| => tables[i].frame)
    }

    /** `has_errors`. */
    predicate HasErrors()
    {
      |errors| > 0
    }
  }

  /** `ExtractionResult()`. */
  function EmptyResult(): (r: ExtractionResult)
    ensures r.Len() == 0 && !r.HasErrors() && r.mergedCount == 0
    ensures forall i :: r.Get(i) == None
  {
    ExtractionResult([], [], 0)
  }
}
