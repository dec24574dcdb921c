# markdown-table-extractor, modelled in Dafny

This project models the core of *markdown-table-extractor*, a Python
library that finds pipe tables in a markdown document and turns each one
into a data frame with metadata. The pipeline it models works like this:

- The document is split into lines.
- Each block of consecutive pipe rows is read as one table:
  - the first row gives the header labels;
  - the first separator row (`| --- | :-: |`) ends the header;
  - an optional sub-header row, or a "mostly empty header" swap, refines the labels;
  - the remaining non-separator rows are cleaned and padded or truncated to the header width.
- A caption such as `Table 3 (Continued)` is looked up in the five lines above the table.
- Adjacent tables are folded together when the later one continues the earlier one:
  - the first rule is a missing caption, or a bare `Table N` caption;
  - the second rule is the chosen merge strategy.

The modules follow the package's files:

| module | file | what it holds |
|---|---|---|
| `Wrappers` | — | `Option`, and `Outcome` (a value, or the two ways the Python code can fail to produce one) |
| `Text` | — | Python string primitives: `strip`, `split()`, `" ".join`, `split(c)`, `lower`, `replace`, `zip` |
| `Numbers` | — | decimal rendering and Python's `int(s)` |
| `Models` | `core/models.py` | `TableMergeStrategy`, `ExtractedTable`, `ExtractionResult`, and a frame made of labels plus rows |
| `Parser` | `core/parser.py` | row tests, row splitting, the sub-header test and the caption search |
| `Cleaner` | `core/cleaner.py` | tag stripping, entity decoding, whitespace collapsing, header matching and sub-header fusion |
| `Extractor` | `core/extractor.py` | `extract_single_table`, the document scan and `extract_markdown_tables` |
| `Merger` | `core/merger.py` | the merge rules, `merge_two_tables` and the `merge_tables` fold |
| `ParserRegular` | `core/parser_regular.py` | the alternate separator, sub-header and caption rules |

How the model is built:

- Where the Python code loops and appends, the model has a `method` with a `while` loop. That method is proved equal to a specification function, and the properties are proved about the function. This covers:
  - `merge_sub_header`;
  - the row collection, separator search, header swap and data-row loops of `extract_single_table`;
  - the scan of `extract_markdown_tables`;
  - the `merge_tables` fold;
  - the caption search in `parser.py`;
  - `is_sub_header_row` and `detect_caption` in `parser_regular.py`.
- Pure expressions and comprehensions become functions.
- Every regular expression of the source is written out as a character-level predicate.
- Every float threshold is written as an integer cross-multiplication, for example `matches / len >= 0.8` as `5 * matches >= 4 * len`.

A pandas data frame is modelled as `Frame(labels, rows)`:

- Labels are `Named(names)` for the string columns of a separated table.
- Labels are `Positional(n)` for the integer `RangeIndex` that pandas gives the no-separator path.

The two transient attributes `_table_number` and `_is_bare_caption` are modelled as `meta: Option<CaptionMeta>`. `None` means the attribute is absent, which is the case on merged tables and on tables without a separator.

Errors that escape the library are results, not preconditions.
- `clean_column_name` raises `TypeError` when handed pandas' integer labels. `should_merge_tables` passes them to it under `IDENTICAL_HEADERS`.
  - The model returns `Outcome.TypeError` there, and `extract_markdown_tables` propagates it as the Python code does.
- `pd.concat` of frames of different widths builds a column union. This happens under `COMPATIBLE_COLUMNS`.
  - The model returns `Outcome.ColumnUnion` there; see "Left out".

Where the documentation and the code disagree, the model follows the code:
- The `is_sub_header_row` docstring example in `core/parser_regular.py` (line 125) claims `True`. The code computes an empty ratio of 0.4 and returns `False`, which `ParserRegular.SubHeaderDocExample` proves.
- The `clean_column_name` docstring says it lowercases. The code does not, and neither does the model; only `normalize_headers` lowercases.
- The `parse_table_row` docstring in `core/parser.py` mentions escaped pipes. The code splits on every `|`, and so does the model.

## Model

| member | source | states |
|---|---|---|
| Models.LabelTexts | src/markdown_table_extractor/core/models.py:55-56 | the column list of a frame: the names of a named frame, `0 … n-1` of a positional one, one entry per column |
| Models.Table.ColumnCount | src/markdown_table_extractor/core/models.py:54-56 | `column_count` is the number of column labels |
| Models.Table.RowCount | src/markdown_table_extractor/core/models.py:58-60 | `row_count` is the number of data rows |
| Models.FromFrame | src/markdown_table_extractor/core/models.py:47-52 | a table built from a frame alone has no caption, lines 0 and 0, empty markdown and no continuation flag |
| Models.ExtractionResult.Len | src/markdown_table_extractor/core/models.py:86-87 | `len(result)` is the number of tables |
| Models.ExtractionResult.Get | src/markdown_table_extractor/core/models.py:92-93 | `result[i]` is defined exactly for `-len <= i < len`; a non-negative index selects `tables[i]`, a negative one counts from the end, and anything else is the `IndexError` (`None`) |
| Models.ExtractionResult.Iter | src/markdown_table_extractor/core/models.py:89-90 | iteration yields `len(result)` tables, the i-th being `result[i]` |
| Models.ExtractionResult.GetDataframes | src/markdown_table_extractor/core/models.py:95-97 | one frame per table, in table order |
| Models.ExtractionResult.HasErrors | src/markdown_table_extractor/core/models.py:99-101 | `has_errors` holds exactly when the error list is non-empty |
| Models.Frame.IsEmpty | src/markdown_table_extractor/core/extractor.py:196 | `dataframe.empty`: a frame without rows or without columns |
| Models.EmptyResult | src/markdown_table_extractor/core/models.py:82-84 | the default result has no tables, no errors (`has_errors` false), merged count 0, and every index is out of range |
| Parser.IsTableRow | src/markdown_table_extractor/core/parser.py:20-30 | `is_table_row`: the stripped line starts and ends with `\|` |
| Parser.LonePipeIsRow | src/markdown_table_extractor/core/parser.py:29-30 | a lone `\|` is a table row, since it both starts and ends with a pipe |
| Parser.TableRowOfPadded | src/markdown_table_extractor/core/parser.py:20-30 | any blank padding around a text that starts and ends with `\|` is still a table row |
| Parser.TrimAll | src/markdown_table_extractor/core/parser.py:105 | `[cell.strip() for cell in cells]`: same length, each cell stripped |
| Parser.ParseTableRow | src/markdown_table_extractor/core/parser.py:93-105 | one cell more than the pipes left once the outer pipes are removed |
| Parser.ParsedCells | src/markdown_table_extractor/core/parser.py:93-105 | the cell list is never empty (so the `if not cells` guards cannot fire), and every cell is stripped and pipe-free |
| Parser.CellCountOfRow | src/markdown_table_extractor/core/parser.py:93-105 | a table row of stripped length at least 2 splits into exactly (number of pipes − 1) cells |
| Parser.ParseOfJoined | src/markdown_table_extractor/core/parser.py:93-105 | pipe-free pieces joined between outer pipes form a table row that parses back into the stripped pieces |
| Parser.ParseOfRender | src/markdown_table_extractor/core/parser.py:93-105 | rendering clean cells as `\| a \| b \|` and parsing gives the cells back (round trip) |
| Parser.StripPipesOfWrapped | src/markdown_table_extractor/core/parser.py:96-99 | removing the outer pipes from `\|j\|` leaves `j` |
| Parser.ParseExample | src/markdown_table_extractor/core/parser.py:88-91 | `"\| Name \| Age \| City \|"` parses into `["Name", "Age", "City"]` |
| Parser.SeparatorCell | src/markdown_table_extractor/core/parser.py:17 | `^:?-{1,}:?$`: an optional colon, at least one dash, an optional colon, nothing else |
| Parser.IsSeparatorRow | src/markdown_table_extractor/core/parser.py:33-55 | `is_separator_row`: a table row with at least one cell, every stripped cell a separator cell |
| Parser.SeparatorCellOfShape | src/markdown_table_extractor/core/parser.py:17 | every `:?-+:?` shape (optional colon, at least one dash, optional colon) is a separator cell |
| Parser.ShapeOfSeparatorCell | src/markdown_table_extractor/core/parser.py:17 | every separator cell has that shape (the converse) |
| Parser.NotSeparatorCell | src/markdown_table_extractor/core/parser.py:17 | a cell holding any character other than `-` and `:` is not a separator cell |
| Parser.SeparatorRowOfTwo | src/markdown_table_extractor/core/parser.py:48-55 | a two-cell row whose stripped cells are separator cells is a separator row |
| Parser.NotSeparatorRowOfTwo | src/markdown_table_extractor/core/parser.py:48-55 | a two-cell row whose first cell is not a separator cell is not a separator row |
| Parser.AlignedSeparatorExample | src/markdown_table_extractor/core/parser.py:33-55 | `"\|:--\|--:\|"` is a separator row |
| Parser.SpacedSeparatorExample | src/markdown_table_extractor/core/parser.py:33-55 | `"\|  ---  \|  ---  \|"` is a separator row |
| Parser.TextRowIsNotSeparator | src/markdown_table_extractor/core/parser.py:33-55 | `"\| --- Data \| More --- \|"` is not a separator row |
| Parser.DataRowIsNotSeparator | src/markdown_table_extractor/core/parser.py:33-55 | `"\| 2021 \| 45% \|"` is not a separator row |
| Parser.NonRowsAreNotSeparators | src/markdown_table_extractor/core/parser.py:48-49 | plain text and the empty line are not separator rows |
| Parser.IsSubHeaderRow | src/markdown_table_extractor/core/parser.py:58-79 | `is_sub_header_row`: a table row whose share of blank cells reaches the threshold `num/den` |
| Parser.EmptyCount | src/markdown_table_extractor/core/parser.py:78 | the number of blank cells is at most the number of cells |
| Parser.EmptyCountAll | src/markdown_table_extractor/core/parser.py:78 | all cells blank: the blank count is the cell count |
| Parser.EmptyCountNone | src/markdown_table_extractor/core/parser.py:78 | no cell blank: the blank count is 0 |
| Parser.AllBlankIsSubHeader | src/markdown_table_extractor/core/parser.py:71-79 | a table row whose cells are all empty is a sub-header row for every threshold up to 1 |
| Parser.NoBlankIsNoSubHeader | src/markdown_table_extractor/core/parser.py:71-79 | a row without an empty cell is never a sub-header row for a positive threshold |
| Parser.KeywordLength | src/markdown_table_extractor/core/parser.py:135 | the `table\|tbl\.?` keyword, matched case-insensitively, lies within the line |
| Parser.DigitRun | src/markdown_table_extractor/core/parser.py:135 | `\d+` is the maximal run of leading digits |
| Parser.LineRest | src/markdown_table_extractor/core/parser.py:135 | `(.*)` reaches up to, not including, the first line break |
| Parser.MatchCaption | src/markdown_table_extractor/core/parser.py:134-137 | the anchored caption regex: keyword, blanks, the number, an optional separator, and the description up to the line break |
| Parser.MatchNeedsKeyword | src/markdown_table_extractor/core/parser.py:134-137 | a caption match starts with `table` or `tbl` in any case; the keyword is mandatory |
| Parser.MatchNumberShape | src/markdown_table_extractor/core/parser.py:134-137 | the matched number is digits followed by at most one letter of `[a-z]` under `IGNORECASE`, so of either case |
| Parser.MatchDescriptionShape | src/markdown_table_extractor/core/parser.py:159-162 | the description is stripped and holds no line break |
| Parser.MatchOfTableCaption | src/markdown_table_extractor/core/parser.py:159-162 | `Table`/`TABLE` (any case), blanks, digits, then a non-digit non-letter: a match with those digits as the number and the stripped rest as the description |
| Parser.DescriptionOfText | src/markdown_table_extractor/core/parser.py:159-162 | with no separator character after the number, the description is the stripped text |
| Parser.DescriptionOfSeparated | src/markdown_table_extractor/core/parser.py:134-137 | one of `. : - – —` after the number is dropped from the description |
| Parser.StripEmphasis | src/markdown_table_extractor/core/parser.py:157 | the four `replace` calls removing `**`, `__`, `*` and `_` in that order |
| Parser.HasContinuationMarker | src/markdown_table_extractor/core/parser.py:138-141 | the continuation regex searched in any case; every one of its alternatives holds `cont`, so it is a case-insensitive search for `cont` |
| Parser.UnmarkedWithoutC | src/markdown_table_extractor/core/parser.py:138-141 | a line without `c` or `C` carries no continuation marker |
| Parser.StripEmphasisRemoves | src/markdown_table_extractor/core/parser.py:157 | removing `**`, `__`, `*` and `_` in turn deletes every `*` and every `_` |
| Parser.MarkerAt | src/markdown_table_extractor/core/parser.py:138-141 | a `cont` in any case anywhere in the line is a continuation marker |
| Parser.CaptionOf | src/markdown_table_extractor/core/parser.py:146-171 | a line gives a caption only with its stripped text as caption and a table number; the continuation flag is the bare flag or a continuation marker in the emphasis-stripped line |
| Parser.CaptionOfText | src/markdown_table_extractor/core/parser.py:146-171 | a stripped text line whose emphasis-stripped form matches gives caption = the line itself, number = the match's number, bare = empty description, continuation = marker or bare |
| Parser.Decisions | src/markdown_table_extractor/core/parser.py:145-171 | the per-line verdicts, one per line |
| Parser.CaptionSearch | src/markdown_table_extractor/core/parser.py:143-173 | `detect_caption` as a value: the verdict of the closest caption line in the window, or `(None, False, None, False)` |
| Parser.DetectCaption | src/markdown_table_extractor/core/parser.py:108-173 | the backwards loop computes the caption search of the specification |
| Parser.CaptionSearchFinds | src/markdown_table_extractor/core/parser.py:143-171 | the result is the verdict of the closest captioned line in the window; lines between it and the table that are not captions, text lines included, do not stop the scan |
| Parser.CaptionSearchNone | src/markdown_table_extractor/core/parser.py:143-173 | the result is `(None, False, None, False)` exactly when no line of the window is a caption |
| Parser.CaptionSearchLocal | src/markdown_table_extractor/core/parser.py:143-145 | only the lines in the window `[max(0, start - lookback), start)` matter |
| Parser.EmphasisedCaption | src/markdown_table_extractor/core/parser.py:157-171 | wrapping a caption line in `**…**` keeps its verdict, with the bold line itself as caption |
| Parser.PlainCaption | src/markdown_table_extractor/core/parser.py:159-171 | a `Table N…` line is a caption with number N, bare exactly when the description is empty, continuation when marked or bare |
| Parser.ContinuedCaptionExample | src/markdown_table_extractor/core/parser.py:164-171 | `"Table 3 (Continued)"` is a continuation with number 3 and is not bare |
| Parser.DottedContinuedExample | src/markdown_table_extractor/core/parser.py:164-171 | `"Table 3. (Continued)"` is a continuation with number 3 and is not bare |
| Parser.BoldCaptionExample | src/markdown_table_extractor/core/parser.py:157-171 | `"**Table 2. Study Results**"` keeps its emphasis as caption, has number 2, is not bare and is not a continuation |
| Parser.BareCaptionExample | src/markdown_table_extractor/core/parser.py:167-171 | `"Table 2"` is bare and therefore a continuation |
| Cleaner.CloseAt | src/markdown_table_extractor/core/cleaner.py:32 | the first `>` of the text, or none |
| Cleaner.TagLength | src/markdown_table_extractor/core/cleaner.py:32 | a `<[^>]+>` match at the front of the text is a tag |
| Cleaner.TagLengthOfTag | src/markdown_table_extractor/core/cleaner.py:32 | and every tag at the front is found (the converse) |
| Cleaner.TagsToSpace | src/markdown_table_extractor/core/cleaner.py:32 | `re.sub(r"<[^>]+>", " ", s)`: each tag, leftmost first, replaced by one space |
| Cleaner.TagsToSpaceOfPlain | src/markdown_table_extractor/core/cleaner.py:32 | text without `<` is left unchanged |
| Cleaner.TagsToSpaceOfTagged | src/markdown_table_extractor/core/cleaner.py:32 | the leftmost tag becomes one space and the scan resumes after it |
| Cleaner.NoTagLeft | src/markdown_table_extractor/core/cleaner.py:32 | no tag remains after the substitution |
| Cleaner.TagsToSpaceIdempotent | src/markdown_table_extractor/core/cleaner.py:32 | the substitution is idempotent |
| Cleaner.TagsToSpaceOfLower | src/markdown_table_extractor/core/cleaner.py:32 | it commutes with lowercasing |
| Cleaner.CleanColumnName | src/markdown_table_extractor/core/cleaner.py:17-37 | `clean_column_name`: tags to spaces, whitespace collapsed, stripped |
| Cleaner.CleanColumnNameSpec | src/markdown_table_extractor/core/cleaner.py:17-37 | the cleaned name is single-spaced and stripped, and holds exactly the visible characters of the tag-stripped name |
| Cleaner.CleanColumnNameOfClean | src/markdown_table_extractor/core/cleaner.py:17-37 | a name without tags that is already single-spaced is unchanged |
| Cleaner.CleanColumnNameOfLower | src/markdown_table_extractor/core/cleaner.py:17-37 | cleaning does not change case; it commutes with lowercasing |
| Cleaner.CleanColumnNameExample | src/markdown_table_extractor/core/cleaner.py:32-37 | `"Column<br>Name"` becomes `"Column Name"` |
| Cleaner.DecodeEntities | src/markdown_table_extractor/core/cleaner.py:60-63 | the four entity replacements, `&nbsp;` first and `&gt;` last |
| Cleaner.CleanValue | src/markdown_table_extractor/core/cleaner.py:53-54 | the empty value stays empty |
| Cleaner.CleanValueSpec | src/markdown_table_extractor/core/cleaner.py:40-68 | every cleaned value is single-spaced and stripped, and a non-empty value keeps exactly the visible characters of its tag-stripped, entity-decoded text |
| Cleaner.CleanValueOfWords | src/markdown_table_extractor/core/cleaner.py:40-68 | a value whose decoded text is words joined by single spaces cleans to exactly that text |
| Cleaner.DecodeOfNbsp | src/markdown_table_extractor/core/cleaner.py:60-63 | `&nbsp;` between two stretches without `&` decodes to one space and nothing else changes |
| Cleaner.HtmlValueExample | src/markdown_table_extractor/core/cleaner.py:40-68 | `"Data<br>with&nbsp;HTML"` cleans to `"Data with HTML"` |
| Cleaner.EscapedTagExample | src/markdown_table_extractor/core/cleaner.py:57-63 | entities are decoded after tag removal, so `&lt;b&gt;` survives as the literal tag `<b>` |
| Cleaner.NormalizeHeaders | src/markdown_table_extractor/core/cleaner.py:82 | same length, each entry `clean_column_name(h).lower()` |
| Cleaner.NormalizeHeadersSpec | src/markdown_table_extractor/core/cleaner.py:71-82 | every normalised header is lowercase and single-spaced |
| Cleaner.NormalizeOfLower | src/markdown_table_extractor/core/cleaner.py:71-82 | normalising ignores case: lowercased headers normalise to the same list |
| Cleaner.MatchCount | src/markdown_table_extractor/core/cleaner.py:109 | the number of matching positions is at most the length |
| Cleaner.MatchCountFull | src/markdown_table_extractor/core/cleaner.py:109 | every position matches exactly when the two normalised lists are equal |
| Cleaner.HeadersMatch | src/markdown_table_extractor/core/cleaner.py:100-104 | different lengths never match; two empty lists always match |
| Cleaner.HeadersMatchSame | src/markdown_table_extractor/core/cleaner.py:106-111 | equal normalised headers match under any threshold up to 1 |
| Cleaner.HeadersMatchReflexive | src/markdown_table_extractor/core/cleaner.py:106-111 | every header list matches itself under any threshold up to 1 |
| Cleaner.HeadersMatchIgnoresCase | src/markdown_table_extractor/core/cleaner.py:106-111 | a header list matches its lowercased copy |
| Cleaner.ShortHeadersMatchExactly | src/markdown_table_extractor/core/cleaner.py:109-111 | with fewer than 5 columns the 0.8 threshold requires every column, so `["Name","Age","City"]` against `["Name","Score","City"]` fails |
| Cleaner.FuseCell | src/markdown_table_extractor/core/cleaner.py:129-134 | one column of `merge_sub_header`: the sub-header alone, the two joined by a space, or the header, each stripped |
| Cleaner.FuseCellSpec | src/markdown_table_extractor/core/cleaner.py:129-134 | a fused header is stripped, holds the visible text of the header then that of the sub-header, and is empty only when both are blank |
| Cleaner.FusedHeaders | src/markdown_table_extractor/core/cleaner.py:128 | `zip` truncates: the result is as long as the shorter row |
| Cleaner.FusedIsZip | src/markdown_table_extractor/core/cleaner.py:128-134 | the fusion is the position-wise fusion of the two rows cut to that length |
| Cleaner.MergeSubHeader | src/markdown_table_extractor/core/cleaner.py:114-136 | the append loop computes the position-wise fusion |
| Cleaner.FusedHeadersSpec | src/markdown_table_extractor/core/cleaner.py:127-136 | every fused header is stripped and holds the header's visible text followed by the sub-header's |
| Cleaner.MergeSubHeaderExample | src/markdown_table_extractor/core/cleaner.py:118 | `["Name","Age",""]` with `["","","Years"]` gives `["Name","Age","Years"]` |
| Extractor.BlockEnd | src/markdown_table_extractor/core/extractor.py:59-62 | the row collection stops at or after its start, within the document |
| Extractor.BlockEndSpec | src/markdown_table_extractor/core/extractor.py:59-62 | every line of the block is a table row, and the line after it is not |
| Extractor.CollectRows | src/markdown_table_extractor/core/extractor.py:54-62 | the while loop collects exactly the block and leaves `idx` just after it |
| Extractor.FirstSeparator | src/markdown_table_extractor/core/extractor.py:74-78 | a separator index found lies in rows 1 and up |
| Extractor.FirstSeparatorSpec | src/markdown_table_extractor/core/extractor.py:74-78 | the found row is a separator and no earlier row from 1 on is; when none is found, no row from 1 on is a separator |
| Extractor.FindSeparator | src/markdown_table_extractor/core/extractor.py:74-78 | the `enumerate` loop with `break` finds the first separator at index 1 or later |
| Extractor.CleanNamesAt | src/markdown_table_extractor/core/extractor.py:71 | the header cells are cleaned one by one |
| Extractor.SwappedHeaders | src/markdown_table_extractor/core/extractor.py:101 | the swapped headers are as long as the shorter of the two rows |
| Extractor.SwapHeaders | src/markdown_table_extractor/core/extractor.py:98-112 | the swap loop computes the position-wise swap |
| Extractor.SwapCellIsFusion | src/markdown_table_extractor/core/extractor.py:102-111 | the swap of one column agrees with `merge_sub_header`'s fusion of the cleaned cell |
| Extractor.SwappedHeadersSpec | src/markdown_table_extractor/core/extractor.py:98-112 | each swapped header is `"old new"`, new or old, stripped, with the old header's visible text followed by the next row's |
| Extractor.HeaderCaseOf | src/markdown_table_extractor/core/extractor.py:89-118 | which header treatment applies: the swap when the header is mostly empty and the next row has content, the fusion when the next row is a sub-header row, else none |
| Extractor.FinalHeaders | src/markdown_table_extractor/core/extractor.py:89-118 | the labels that treatment gives |
| Extractor.TreatHeaders | src/markdown_table_extractor/core/extractor.py:89-118 | the header treatment chooses plain, swap or sub-header fusion and moves the data start past a consumed row |
| Extractor.BlankRowConsumed | src/markdown_table_extractor/core/extractor.py:94-118 | with sub-header handling on, an all-blank row after the separator is taken into the headers and is never a data row |
| Extractor.CleanValuesAt | src/markdown_table_extractor/core/extractor.py:127 | the data cells are cleaned one by one |
| Extractor.FitRow | src/markdown_table_extractor/core/extractor.py:130-135 | every fitted row has exactly the header width |
| Extractor.FitCells | src/markdown_table_extractor/core/extractor.py:129-135 | padding with `""` or truncating computes the fitted row |
| Extractor.BuildDataRows | src/markdown_table_extractor/core/extractor.py:121-137 | the data-row loop computes the data rows of the specification |
| Extractor.DataRowsWidth | src/markdown_table_extractor/core/extractor.py:121-137 | every data row has exactly the header width |
| Extractor.DataRowsCount | src/markdown_table_extractor/core/extractor.py:124-125 | one data row per non-separator line; separator rows are never data |
| Extractor.MaxWidth | src/markdown_table_extractor/core/extractor.py:82-83 | the width of the positional frame is the longest parsed row |
| Extractor.ParseRows | src/markdown_table_extractor/core/extractor.py:82 | every row of the block, row 0 included, parsed uncleaned |
| Extractor.PadRows | src/markdown_table_extractor/core/extractor.py:83 | pandas pads ragged rows on the right to the widest row; every padded row keeps its cells and has the frame width, the padding empty |
| Extractor.SeparatedTable | src/markdown_table_extractor/core/extractor.py:86-163 | the table of a block with a separator: treated headers, fitted data rows, caption search when enabled, metadata attached |
| Extractor.BlockTable | src/markdown_table_extractor/core/extractor.py:64-163 | the table of a collected block: empty below two rows, positional without a separator, else the separated table |
| Extractor.SingleTable | src/markdown_table_extractor/core/extractor.py:37-163 | `extract_single_table` as a value: the table of the block at `start` and the index after it |
| Extractor.ReadSeparated | src/markdown_table_extractor/core/extractor.py:86-163 | the method reads the separated table |
| Extractor.ReadBlock | src/markdown_table_extractor/core/extractor.py:64-163 | the method reads the block's table |
| Extractor.ExtractSingleTable | src/markdown_table_extractor/core/extractor.py:37-163 | the method computes the table and end index of the specification |
| Extractor.SingleTableSpan | src/markdown_table_extractor/core/extractor.py:56-62 | starting at a table row, the table spans `[start, end)` with `end > start`; every line in it is a table row and the line at `end` is not |
| Extractor.TableBounds | src/markdown_table_extractor/core/extractor.py:150-163 | start line and end line of the table are the start and the returned index |
| Extractor.ShortBlockIsEmpty | src/markdown_table_extractor/core/extractor.py:64-67 | a block of fewer than two rows yields an empty frame without caption metadata |
| Extractor.UnseparatedShape | src/markdown_table_extractor/core/extractor.py:74-84 | with no separator in rows 1 and up, every row is parsed uncleaned and padded on the right with `""` to the widest row, under positional labels of that width; no caption is sought |
| Extractor.SeparatedFrame | src/markdown_table_extractor/core/extractor.py:120-157 | a separated table has named labels, rows all of header width, at most the rows after the separator, and the block's lines joined by newlines as markdown |
| Extractor.SeparatedCaption | src/markdown_table_extractor/core/extractor.py:143-161 | caption, continuation flag, number and bare flag come from the caption search when captions are detected, else are absent |
| Extractor.SeparatedShape | src/markdown_table_extractor/core/extractor.py:74-161 | the same two facts for the table read from a block with a separator |
| Extractor.PlainHeaders | src/markdown_table_extractor/core/extractor.py:120-140 | without sub-header handling, the labels are the cleaned first row and the data rows are the rows after the separator |
| Extractor.BlockAdvances | src/markdown_table_extractor/core/extractor.py:190-197 | each table read moves the scan strictly forward, to the end of the block |
| Extractor.CollectStep | src/markdown_table_extractor/core/extractor.py:190-202 | a table row starts a block whose non-empty table is kept; other lines are skipped |
| Extractor.Collect | src/markdown_table_extractor/core/extractor.py:189-202 | the scan: at a table row read a table, keep it when non-empty and resume after its block; else move one line on |
| Extractor.Finish | src/markdown_table_extractor/core/extractor.py:204-214 | the merge stage: `NONE` keeps the tables, otherwise they are merged, and the merged count is the difference |
| Extractor.Extraction | src/markdown_table_extractor/core/extractor.py:185-214 | `extract_markdown_tables` as a value: the merge stage applied to the scan of the newline-split text |
| Extractor.ScanTables | src/markdown_table_extractor/core/extractor.py:186-202 | the scan loop computes the collected tables of the specification |
| Extractor.CollectSpec | src/markdown_table_extractor/core/extractor.py:189-202 | scanned tables start at table rows, are non-empty, end inside the document and do not overlap, in document order |
| Extractor.NoRowsNoTables | src/markdown_table_extractor/core/extractor.py:189-202 | a document without table rows has no tables |
| Extractor.MergeStage | src/markdown_table_extractor/core/extractor.py:204-214 | the merge stage computes the result of the specification |
| Extractor.FinishSpec | src/markdown_table_extractor/core/extractor.py:204-214 | no errors; merged count = tables before − tables after ≥ 0; `NONE` keeps the tables; otherwise every scanned row is kept in order, and first start and last end are kept |
| Extractor.ExtractionOf | src/markdown_table_extractor/core/extractor.py:185-214 | the extraction is the merge stage applied to the scan of the newline-split text |
| Extractor.ExtractMarkdownTables | src/markdown_table_extractor/core/extractor.py:166-214 | the method computes the extraction of the specification |
| Extractor.TablelessText | src/markdown_table_extractor/core/extractor.py:185-214 | a document without a table row gives no tables, no errors and merged count 0 |
| Extractor.EmptyText | src/markdown_table_extractor/core/extractor.py:185-214 | the empty document gives the empty result |
| Extractor.ContinuationResult | src/markdown_table_extractor/core/extractor.py:204-214 | a table and its continuation with the same named labels come out as one table with both tables' rows, one merge counted |
| Extractor.ExtractTables | src/markdown_table_extractor/core/extractor.py:217-237 | `extract_tables` succeeds exactly when the full extraction does, and then gives its frames |
| Merger.IsContinuationTable | src/markdown_table_extractor/core/merger.py:27-42 | `is_continuation_table`: the flag, or a non-empty caption holding `cont` in any case |
| Merger.Uncaptioned | src/markdown_table_extractor/core/merger.py:103-104 | a table without a caption or with a blank one |
| Merger.HeaderSimilarity | src/markdown_table_extractor/core/merger.py:72-77 | similar headers have equal widths, and identical labels are similar |
| Merger.StripLowerSuffix | src/markdown_table_extractor/core/merger.py:137-138 | `rstrip` of lowercase letters gives the longest prefix not ending in one, the dropped part all lowercase letters |
| Merger.StripSuffixOfNumber | src/markdown_table_extractor/core/merger.py:137-138 | a number with a lowercase suffix such as `3a` strips to `3` |
| Merger.Sequential | src/markdown_table_extractor/core/merger.py:136-145 | both numbers parse as integers after the lowercase strip, the second equal to the first or one more |
| Merger.SequentialNumbers | src/markdown_table_extractor/core/merger.py:136-145 | numbers with lowercase suffixes are sequential exactly when the second is the first or the one after |
| Merger.UpperSuffixNotSequential | src/markdown_table_extractor/core/merger.py:136-140 | a number ending in an uppercase letter keeps it after the strip, `int()` fails, and it is sequential with nothing |
| Merger.UpperSuffixExample | src/markdown_table_extractor/core/merger.py:136-140 | `"3A"` and `"3"` are not sequential, in either order |
| Merger.ShouldMergeBareCaption | src/markdown_table_extractor/core/merger.py:80-155 | `should_merge_bare_caption`: an uncaptioned table merges on equal width; a bare caption needs non-empty sequential numbers, equal width and similar headers |
| Merger.BareCaptionSameWidth | src/markdown_table_extractor/core/merger.py:100-155 | the bare-caption rule only merges tables of equal width, which `merge_two_tables` can always fuse |
| Merger.LabelsMatch | src/markdown_table_extractor/core/merger.py:181-183 | `headers_match` on two column lists; it raises for equal non-zero widths when a list holds integer labels |
| Merger.ShouldMergeTables | src/markdown_table_extractor/core/merger.py:158-189 | `NONE` or a non-continuation table gives false; `IDENTICAL_HEADERS` gives `headers_match`; `COMPATIBLE_COLUMNS` gives a width difference of at most 2 |
| Merger.MergeTwoTables | src/markdown_table_extractor/core/merger.py:192-243 | fusion of different widths is the column union; otherwise the labels are table1's |
| Merger.SameLabels | src/markdown_table_extractor/core/merger.py:216 | `list(df1.columns) == list(df2.columns)` |
| Merger.RecoversLostRow | src/markdown_table_extractor/core/merger.py:216-228 | equal widths, different labels and an uncaptioned second table: its labels are data |
| Merger.MergeTwoTablesSpec | src/markdown_table_extractor/core/merger.py:216-243 | rows are table1's then table2's (with the lost row between them when recovered); caption and start come from table1 and end from table2; markdown is joined by a blank line; no continuation flag, no metadata |
| Merger.MergedRowCount | src/markdown_table_extractor/core/merger.py:216-234 | the merged table has one extra row exactly when the lost header row is recovered |
| Merger.Step | src/markdown_table_extractor/core/merger.py:268-276 | one fold step merges by the bare-caption rule first, then by the strategy; a kept table means neither rule applied |
| Merger.MergeStep | src/markdown_table_extractor/core/merger.py:268-276 | the method computes that step |
| Merger.PrependAll | src/markdown_table_extractor/core/merger.py:275 | tables already emitted stay in front of the rest of the fold |
| Merger.Fold | src/markdown_table_extractor/core/merger.py:264-279 | the `for` loop of `merge_tables` over the remaining tables, the current table carried along |
| Merger.MergeTablesSpec | src/markdown_table_extractor/core/merger.py:261-262 | an empty list or the `NONE` strategy returns the input unchanged |
| Merger.MergeTables | src/markdown_table_extractor/core/merger.py:246-280 | the for loop computes the fold of the specification |
| Merger.MergeKeepsRows | src/markdown_table_extractor/core/merger.py:216-234 | fusing two tables keeps all their rows in order and adds at most one |
| Merger.FoldShape | src/markdown_table_extractor/core/merger.py:264-279 | the fold output is non-empty, no longer than its input, starts where the first table starts and ends where the last ends |
| Merger.FoldRows | src/markdown_table_extractor/core/merger.py:264-279 | every input row appears in order in the output, which adds at most one recovered row per merge |
| Merger.MergeTablesSpecProps | src/markdown_table_extractor/core/merger.py:246-280 | on a non-empty list: there are 1 to n output tables, every input row kept in order, at most one row added per merge, and the first start and last end are kept |
| Merger.PairMerges | src/markdown_table_extractor/core/merger.py:264-279 | two tables whose step merges give the single merged table |
| Merger.PairSeparates | src/markdown_table_extractor/core/merger.py:264-279 | two tables whose step keeps them apart are returned as they are |
| Merger.ContinuationMerges | src/markdown_table_extractor/core/merger.py:173-183 | a flagged continuation with a non-blank caption and the same named labels merges into its predecessor under `IDENTICAL_HEADERS`, rows concatenated, first caption kept |
| Merger.UncaptionedMerges | src/markdown_table_extractor/core/merger.py:103-118 | a table without a caption and of equal width always merges, recovering its labels as a row when they differ |
| Merger.NewCaptionSeparates | src/markdown_table_extractor/core/merger.py:173-178 | a table with a new, non-bare, non-continuation caption is never merged |
| Merger.UpperSuffixSeparates | src/markdown_table_extractor/core/merger.py:122-155 | a bare caption whose number ends in an uppercase letter is never merged by the bare-caption rule, and without a continuation marker its table stays separate |
| Numbers.Decimal | src/markdown_table_extractor/core/merger.py:137-138 | the decimal rendering of a number is a non-empty digit string |
| Numbers.DecimalValue | src/markdown_table_extractor/core/merger.py:137-138 | its digits denote the number |
| Numbers.DecimalRoundTrip | src/markdown_table_extractor/core/merger.py:137-138 | `int()` of the rendering gives the number back |
| Numbers.LetterEndNotInt | src/markdown_table_extractor/core/merger.py:137-140 | `int()` of a text ending in a letter raises `ValueError` (`None`) |
| Text.TrimTwice | src/markdown_table_extractor/core/parser.py:105 | stripping is idempotent |
| Text.TrimEmptyIffBlank | src/markdown_table_extractor/core/parser.py:78 | a string strips to empty exactly when it holds no visible character |
| Text.CollapseSpec | src/markdown_table_extractor/core/cleaner.py:35 | `" ".join(s.split())` is single-spaced and keeps the visible characters |
| Text.CollapseIdempotent | src/markdown_table_extractor/core/cleaner.py:35 | collapsing whitespace twice changes nothing |
| Text.WordsOfJoin | src/markdown_table_extractor/core/cleaner.py:35 | splitting words joined by single spaces gives the words back |
| Text.ReplaceAfterPlain | src/markdown_table_extractor/core/cleaner.py:60-63 | `s.replace(p, r)` copies the text before the first occurrence of `p` and replaces that occurrence |
| Text.SplitOn | src/markdown_table_extractor/core/parser.py:103 | `split(c)` gives one piece more than there are `c`, none containing `c` |
| Text.SplitOfJoin | src/markdown_table_extractor/core/parser.py:103 | splitting pieces joined by `c` gives the pieces back |
| Text.JoinOfSplit | src/markdown_table_extractor/core/parser.py:103 | joining the pieces of a split by `c` gives the text back |
| Text.Lower | src/markdown_table_extractor/core/cleaner.py:82 | lowercasing works character by character |
| Text.LowerTwice | src/markdown_table_extractor/core/cleaner.py:82 | lowercasing is idempotent |
| Text.Zip | src/markdown_table_extractor/core/cleaner.py:128 | a position-wise combination as long as its inputs |
| ParserRegular.Select | src/markdown_table_extractor/core/parser_regular.py:53 | a list filter keeps only accepted cells and never grows the list |
| ParserRegular.SelectAppend | src/markdown_table_extractor/core/parser_regular.py:53 | filtering distributes over concatenation |
| ParserRegular.NonBlank | src/markdown_table_extractor/core/parser_regular.py:53 | `[c.strip() for c in cells if c.strip()]` keeps only non-empty stripped cells |
| ParserRegular.BlankPieceIgnored | src/markdown_table_extractor/core/parser_regular.py:53 | a blank piece anywhere does not change the cell list |
| ParserRegular.NonBlankOfVisible | src/markdown_table_extractor/core/parser_regular.py:53 | without blank pieces the cell list is every piece stripped |
| ParserRegular.IsSeparatorRow | src/markdown_table_extractor/core/parser_regular.py:18-59 | `is_separator_row`: a stripped line holding `\|` and `-` whose non-blank pieces are all separator cells, and there is at least one |
| ParserRegular.NoDashNoSeparator | src/markdown_table_extractor/core/parser_regular.py:46-47 | a line without a dash is never a separator |
| ParserRegular.LonePipeNotSeparator | src/markdown_table_extractor/core/parser.py:48-55 | a line that strips to one character is not a separator for the main parser |
| ParserRegular.DashOfSeparator | src/markdown_table_extractor/core/parser.py:48-55 | a separator row of the main parser contains a dash |
| ParserRegular.ParserSeparatorIsRegular | src/markdown_table_extractor/core/parser_regular.py:41-59 | every separator row of `parser.py` is a separator row here too |
| ParserRegular.OpenSeparatorExample | src/markdown_table_extractor/core/parser_regular.py:41-59 | `"-\|-"` counts as a separator here without outer pipes |
| ParserRegular.OpenSeparatorNotParser | src/markdown_table_extractor/core/parser_regular.py:41-59 | but `parser.py` rejects it, so the converse of the inclusion fails |
| ParserRegular.BlankCellNotParser | src/markdown_table_extractor/core/parser_regular.py:53 | `"\|-\|\|-\|"` has a blank cell, which `parser.py` rejects and this module ignores |
| ParserRegular.PlainRuleExample | src/markdown_table_extractor/core/parser_regular.py:34-35 | `"\| --- \| --- \|"` is a separator for both parsers |
| ParserRegular.CentredRuleExample | src/markdown_table_extractor/core/parser_regular.py:36-37 | `"\| :--: \| :--: \|"` is a separator for both parsers |
| ParserRegular.TextRowExample | src/markdown_table_extractor/core/parser_regular.py:38-39 | `"\| Data \| More \|"` is not a separator |
| ParserRegular.Filled | src/markdown_table_extractor/core/parser_regular.py:132 | the non-empty cells are at most the cells |
| ParserRegular.FilledCount | src/markdown_table_extractor/core/parser_regular.py:132-133 | the non-empty and the empty cells together are all the cells |
| ParserRegular.IsLabel | src/markdown_table_extractor/core/parser_regular.py:139 | a cell shorter than 20 with neither four digits in a row nor `digits.digits` |
| ParserRegular.SubHeaderRow | src/markdown_table_extractor/core/parser_regular.py:128-145 | the sub-header rule as a value: a non-empty row, more than half its cells empty, every non-empty one a label |
| ParserRegular.IsSubHeaderRow | src/markdown_table_extractor/core/parser_regular.py:109-145 | the loop with early return decides the sub-header rule: a non-empty row, strictly more than half the cells empty, every other one a label shorter than 20 without `\d{4}` or `\d+\.\d+`; the header cells are unused |
| ParserRegular.AllBlankIsSubHeader | src/markdown_table_extractor/core/parser_regular.py:128-145 | a non-empty row of blank cells is a sub-header row |
| ParserRegular.ParserSubHeaderIsRegular | src/markdown_table_extractor/core/parser_regular.py:128-145 | a sub-header row of `parser.py` (70 % empty) whose filled cells are labels is one here too (more than 50 % empty) |
| ParserRegular.SubHeaderDocExample | src/markdown_table_extractor/core/parser_regular.py:125-136 | the docstring's row `['', '', 'Early', 'Late', 'Both']` is NOT a sub-header row: 2 of 5 cells are empty |
| ParserRegular.SkipSep | src/markdown_table_extractor/core/parser_regular.py:170 | the optional `[.:]` is dropped or not |
| ParserRegular.AfterNumber | src/markdown_table_extractor/core/parser_regular.py:170-172 | `(?:Table\|TABLE)\s*(\d+)` consumes a non-empty prefix |
| ParserRegular.CloseAt | src/markdown_table_extractor/core/parser_regular.py:171 | `[^)]+` ends at the first `)` found |
| ParserRegular.PlainCaption | src/markdown_table_extractor/core/parser_regular.py:170 | the first caption pattern, `Table`/`TABLE` in any case, blanks, digits, an optional `.` or `:`, then the line |
| ParserRegular.ParenCaption | src/markdown_table_extractor/core/parser_regular.py:171 | the second pattern: the number followed by a non-empty parenthesis |
| ParserRegular.BoldCaption | src/markdown_table_extractor/core/parser_regular.py:172 | the third pattern: the first one between `**` and `**` |
| ParserRegular.MatchesCaption | src/markdown_table_extractor/core/parser_regular.py:169-173 | one of the three patterns matches |
| ParserRegular.Judge | src/markdown_table_extractor/core/parser_regular.py:185-203 | a blank line or a `---` rule without pipes is skipped; a line matching one of the three patterns is the caption; any other line stops the search |
| ParserRegular.Nearest | src/markdown_table_extractor/core/parser_regular.py:182-190 | the closest line above the table not skipped, with every line between skipped |
| ParserRegular.NearestStep | src/markdown_table_extractor/core/parser_regular.py:182-192 | one more line of the window either is skipped or is the nearest |
| ParserRegular.NearestIs | src/markdown_table_extractor/core/parser_regular.py:182-192 | the nearest line not skipped is found |
| ParserRegular.NearestLocal | src/markdown_table_extractor/core/parser_regular.py:180-182 | only the scanned window matters |
| ParserRegular.WindowStart | src/markdown_table_extractor/core/parser_regular.py:180 | `max(0, table_start_line - max_lines_before)` |
| ParserRegular.FindNearest | src/markdown_table_extractor/core/parser_regular.py:182-192 | the reverse loop with `continue` finds the nearest line not skipped |
| ParserRegular.MatchAny | src/markdown_table_extractor/core/parser_regular.py:196-200 | the pattern loop reports whether one of the three caption patterns matches |
| ParserRegular.CaptionSearch | src/markdown_table_extractor/core/parser_regular.py:180-205 | no caption means no continuation; a caption is a stripped line of the window that matches a pattern, with a continuation flag exactly when it holds `cont` |
| ParserRegular.DetectCaption | src/markdown_table_extractor/core/parser_regular.py:148-205 | the method computes that search |
| ParserRegular.FoundCaption | src/markdown_table_extractor/core/parser_regular.py:180-200 | when the closest non-skipped line is a caption it is returned with its continuation flag |
| ParserRegular.TextHidesCaption | src/markdown_table_extractor/core/parser_regular.py:202-205 | when the closest non-skipped line is other text the search stops with `(None, False)`, even with a caption further up |
| ParserRegular.CaptionLocal | src/markdown_table_extractor/core/parser_regular.py:180-182 | only the lines of the window `[max(0, start - max_lines_before), start)` matter |
| ParserRegular.AfterNumberOf | src/markdown_table_extractor/core/parser_regular.py:170-172 | blanks and a run of digits are consumed by `\s*(\d+)`, leaving what follows the run |
| ParserRegular.TailOfLine | src/markdown_table_extractor/core/parser_regular.py:170-172 | `\s*(.*)$` accepts every tail without a line break, with or without a leading `[.:]` taken |
| ParserRegular.PlainCaptionOf | src/markdown_table_extractor/core/parser_regular.py:170 | `Table`, blanks, a number and a line of text match the first pattern |
| ParserRegular.ParenCaptionOf | src/markdown_table_extractor/core/parser_regular.py:171 | `Table`, blanks, a number, blanks and a parenthesis without `)` inside match the second pattern |
| ParserRegular.CloseOfParen | src/markdown_table_extractor/core/parser_regular.py:171 | `[^)]+` stops at the `)` closing a parenthesis without one inside |
| ParserRegular.BoldCaptionOf | src/markdown_table_extractor/core/parser_regular.py:172 | the same as the first pattern between `**` and `**` matches the third |
| ParserRegular.CaptionAboveTable | src/markdown_table_extractor/core/parser_regular.py:180-200 | a stripped caption line directly above a table is its caption, with its continuation flag |
| ParserRegular.PlainCaptionExample | src/markdown_table_extractor/core/parser_regular.py:170 | `"Table 1. Title"` above a table is found, not a continuation |
| ParserRegular.ParenCaptionExample | src/markdown_table_extractor/core/parser_regular.py:171 | `"Table 1 (Continued)"` above a table is found as a continuation |
| ParserRegular.BoldCaptionExample | src/markdown_table_extractor/core/parser_regular.py:172 | `"**Table 1. Title**"` above a table is found with its emphasis, not a continuation |

## Left out

- Unicode: `str.strip`, `str.split()` and `isspace` use Python's exact set of whitespace code points, and the `[a-z]` class under `re.IGNORECASE` is modelled exactly (it also accepts U+0130, U+0131, U+017F and U+212A); but `str.lower` and `\d` are modelled for ASCII only.
- Float thresholds (0.5, 0.7, 0.8 and the `threshold` parameters) are integer ratios `num/den`, compared by cross-multiplication; this gives the same answers as the float comparisons for these constants.
- Merger.HeaderSimilarity: models only the exact fallback of `_check_header_similarity`. The `rapidfuzz` branch tried first in the source depends on an optional foreign library and a float average, so the model behaves as if the import fails.
- Merger.MergeTwoTables: does not build the column union that `pd.concat` makes of frames of different widths (reachable under `COMPATIBLE_COLUMNS`); that case is reported as `Outcome.ColumnUnion` and the fold stops there.
- Extractor.UnseparatedShape: pandas fills the short rows of the no-separator path with `None`; the model pads them with the empty string, and its integer labels are `Positional(n)`. `clean_column_name` on such labels is the `TypeError` outcome rather than a modelled string operation.
- The continuation example document of the test suite (`Table 3. Results` then `Table 3. (Continued)`, two rows each) is not traced from its text to its result. Its parts are proved separately: the caption (`Parser.DottedContinuedExample`) and the merge stage (`Extractor.ContinuationResult`). The model does not evaluate a whole document literally.
- Heterogeneous pandas behaviour is not modelled: duplicate column labels, dtype inference and `NaN`.
- The `try/except` of the scan: the model catches nothing, because no operation of the model raises inside `extract_single_table`; the errors list is therefore always empty.
- Exceptions escaping the library (`TypeError` from integer labels) are the `Outcome.TypeError` value, not a raised exception.
- ParserRegular.DetectCaption: the source's one loop is split into two methods, the reverse walk (`FindNearest`) and the pattern loop (`MatchAny`); together they visit the same lines in the same order.
- `ExtractedTable.__repr__`, the marimo notebook cells at the end of every core file, `core/index.py`, the CLI, the LLM extractor and the package `__init__` files are not part of this model (user interface, I/O and network).
