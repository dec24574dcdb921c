/**
 * Folding adjacent continuation tables together: when a table continues
 * the one before it (a bare or missing caption, or a continuation caption
 * under the chosen strategy) the two are fused into one.
 */
module Merger {
  import opened Wrappers
  import opened Text
  import opened Numbers
  import opened Models
  import Parser
  import Cleaner

  // ---------------------------------------------------------------------------
  // Deciding
  // ---------------------------------------------------------------------------

  /** `is_continuation_table`: the flag, or a continuation marker in a non-empty caption. */
  predicate IsContinuationTable(t: Table)
  {
    t.isContinuation || (t.caption.Some? && t.caption.value != [] && Parser.HasContinuationMarker(t.caption.value))
  }

  /** A table without a caption, or with a blank one. */
  predicate Uncaptioned(t: Table)
  {
    t.caption.None? || Trim(t.caption.value) == []
  }

  /**
   * The exact branch of `_check_header_similarity`: equally many labels,
   * and at every position the same text once lowercased and stripped.
   */
  function HeaderSimilarity(l1: Labels, l2: Labels): (r: bool)
    ensures r ==> l1.Width() == l2.Width()
    ensures l1 == l2 ==> r
  {
    var t1, t2 := LabelTexts(l1), LabelTexts(l2);
    |t1| == |t2| && forall i :: 0 <= i < |t1| ==> Trim(Lower(t1[i])) == Trim(Lower(t2[i]))
  }

  /** `s.rstrip('abcdefghijklmnopqrstuvwxyz')`. */
  function StripLowerSuffix(s: string): (r: string)
    ensures |r| <= |s| && r == s[..|r|]
    ensures forall k :: |r| <= k < |s| ==> IsLowerLetter(s[k])
    ensures r == [] || !IsLowerLetter(r[|r| - 1])
  {
    if |s| > 0 && IsLowerLetter(s[|s| - 1]) then StripLowerSuffix(s[..|s| - 1]) else s
  }

  /** Table numbers `n` and then `n` or `n + 1`, read after dropping a lowercase suffix. */
  predicate Sequential(prevNumber: string, currNumber: string)
  {
    match (ParseInt(StripLowerSuffix(prevNumber)), ParseInt(StripLowerSuffix(currNumber)))
    case (Some(p), Some(c)) => c == p || c == p + 1
    case _ => false
  }

  /** Dropping a lowercase suffix from a number leaves the number. */
  lemma {:induction false} StripSuffixOfNumber(d: string, suffix: string)
    requires d != [] && IsDigit(d[|d| - 1])
    requires forall k :: 0 <= k < |suffix| ==> IsLowerLetter(suffix[k])
    ensures StripLowerSuffix(d + suffix) == d
    decreases |suffix|
  {
    if suffix == [] {
      assert d + suffix == d;
    } else {
      var s := d + suffix;
      assert s[..|s| - 1] == d + suffix[..|suffix| - 1];
      StripSuffixOfNumber(d, suffix[..|suffix| - 1]);
    }
  }

  /**
   * Numbered captions such as "3a" and "4": two numbers with lowercase
   * suffixes are sequential exactly when the second equals the first or
   * the one after it.
   */
  lemma SequentialNumbers(p: nat, a: string, c: nat, b: string)
    requires forall k :: 0 <= k < |a| ==> IsLowerLetter(a[k])
    requires forall k :: 0 <= k < |b| ==> IsLowerLetter(b[k])
    ensures Sequential(Decimal(p) + a, Decimal(c) + b) <==> c == p || c == p + 1
  {
    StripSuffixOfNumber(Decimal(p), a);
    StripSuffixOfNumber(Decimal(c), b);
    DecimalRoundTrip(p);
    DecimalRoundTrip(c);
  }

  /**
   * A number with an uppercase suffix such as "3A" keeps the suffix after
   * the lowercase strip, so `int()` fails and it is sequential with nothing.
   */
  lemma UpperSuffixNotSequential(other: string, d: string, u: char)
    requires 'A' <= u <= 'Z'
    ensures !Sequential(other, d + [u]) && !Sequential(d + [u], other)
  {
    var s := d + [u];
    assert StripLowerSuffix(s) == s;
    LetterEndNotInt(s);
  }

  /** `"3A"` and `"3"` are not sequential, in either order. */
  lemma UpperSuffixExample()
    ensures !Sequential("3A", "3") && !Sequential("3", "3A")
  {
    assert "3A" == "3" + ['A'];
    UpperSuffixNotSequential("3", "3", 'A');
  }

  /**
   * `should_merge_bare_caption`: a table without a caption continues the
   * previous one when the column counts agree; one with a bare caption
   * when both carry non-empty numbers that are sequential, the column
   * counts agree and the labels are similar.
   */
  predicate ShouldMergeBareCaption(prev: Table, curr: Table)
  {
    if Uncaptioned(curr) then prev.ColumnCount() == curr.ColumnCount()
    else if curr.meta.None? || !curr.meta.value.isBare || prev.meta.None? then false
    else
      match (prev.meta.value.tableNumber, curr.meta.value.tableNumber)
      case (Some(p), Some(c)) =>
        && p != [] && c != []
        && Sequential(p, c)
        && prev.ColumnCount() == curr.ColumnCount()
        && HeaderSimilarity(prev.frame.labels, curr.frame.labels)
      case _ => false
  }

  /** Whatever the captions, a bare-caption merge needs equally many columns. */
  lemma BareCaptionSameWidth(prev: Table, curr: Table)
    requires ShouldMergeBareCaption(prev, curr)
    ensures prev.ColumnCount() == curr.ColumnCount()
    ensures MergeTwoTables(prev, curr).Done?
  {
  }

  /**
   * `headers_match` on two frames' column lists: pandas' integer labels
   * reach `clean_column_name`, whose `re.sub` raises `TypeError`, once both
   * lists are equally long and not empty.
   */
  function LabelsMatch(l1: Labels, l2: Labels): (r: Outcome<bool>)
    ensures r.ColumnUnion? == false
    ensures r.TypeError? <==> l1.Width() == l2.Width() > 0 && (l1.Positional? || l2.Positional?)
    ensures l1.Named? && l2.Named? ==> r == Done(Cleaner.HeadersMatch(l1.names, l2.names, Cleaner.MatchNum, Cleaner.MatchDen))
  {
    if l1.Width() != l2.Width() then Done(false)
    else if l1.Width() == 0 then Done(true)
    else if l1.Named? && l2.Named? then Done(Cleaner.HeadersMatch(l1.names, l2.names, Cleaner.MatchNum, Cleaner.MatchDen))
    else TypeError
  }

  function Abs(x: int): nat
  {
    if x < 0 then -x else x
  }

  /**
   * `should_merge_tables`: never under `NONE` or when the second table is
   * no continuation; otherwise matching headers, or column counts at most
   * two apart.
   */
  function ShouldMergeTables(t1: Table, t2: Table, strategy: Strategy): (r: Outcome<bool>)
    ensures !r.ColumnUnion?
    ensures strategy == NoMerge || !IsContinuationTable(t2) ==> r == Done(false)
    ensures strategy == IdenticalHeaders && IsContinuationTable(t2) ==> r == LabelsMatch(t1.frame.labels, t2.frame.labels)
    ensures strategy == CompatibleColumns && IsContinuationTable(t2) ==> r == Done(Abs(t1.ColumnCount() - t2.ColumnCount()) <= 2)
  {
    if strategy == NoMerge then Done(false)
    else if !IsContinuationTable(t2) then Done(false)
    else if strategy == IdenticalHeaders then LabelsMatch(t1.frame.labels, t2.frame.labels)
    else Done(Abs(t1.ColumnCount() - t2.ColumnCount()) <= 2)
  }

  // ---------------------------------------------------------------------------
  // Fusing two tables
  // ---------------------------------------------------------------------------

  /** Python's `list(df1.columns) != list(df2.columns)`; two empty lists are equal. */
  predicate SameLabels(l1: Labels, l2: Labels)
  {
    (l1.Width() == 0 && l2.Width() == 0) || l1 == l2
  }

  /** The second table's labels come back as a data row: the lost-row recovery applies. */
  predicate RecoversLostRow(t1: Table, t2: Table)
  {
    t1.ColumnCount() == t2.ColumnCount() && !SameLabels(t1.frame.labels, t2.frame.labels) && Uncaptioned(t2)
  }

  /**
   * `merge_two_tables`: the rows of the first table, then (when the second
   * has no caption and other labels) those labels as a row, then the rows
   * of the second, under the first table's labels; frames of different
   * widths give pandas' column union instead.
   */
  function MergeTwoTables(t1: Table, t2: Table): (r: Outcome<Table>)
    ensures r.TypeError? == false
    ensures r.ColumnUnion? <==> t1.ColumnCount() != t2.ColumnCount()
    ensures r.Done? ==> r.value.frame.labels == t1.frame.labels
  {
    if t1.ColumnCount() != t2.ColumnCount() then ColumnUnion
    else
      var lost := if RecoversLostRow(t1, t2) then [LabelTexts(t2.frame.labels)] else [];
      Done(Table(
        Frame(t1.frame.labels, t1.frame.rows + (lost + t2.frame.rows)),
        t1.caption, t1.startLine, t2.endLine,
        t1.rawMarkdown + "\n\n" + t2.rawMarkdown,
        false, None))
  }

  /**
   * A merged table keeps the first table's caption and start, ends where
   * the second ends, joins the raw texts with a blank line, is no
   * continuation and carries no caption metadata; its rows are the first
   * table's, then the recovered label row if any, then the second table's.
   */
  lemma MergeTwoTablesSpec(t1: Table, t2: Table)
    requires t1.ColumnCount() == t2.ColumnCount()
    ensures MergeTwoTables(t1, t2).Done?
    ensures var m := MergeTwoTables(t1, t2).value;
      && m.caption == t1.caption && m.startLine == t1.startLine && m.endLine == t2.endLine
      && m.rawMarkdown == t1.rawMarkdown + "\n\n" + t2.rawMarkdown
      && !m.isContinuation && m.meta == None
      && m.frame.rows[..t1.RowCount()] == t1.frame.rows
      && m.frame.rows[|m.frame.rows| - t2.RowCount()..] == t2.frame.rows
      && (RecoversLostRow(t1, t2) ==> m.frame.rows[t1.RowCount()] == LabelTexts(t2.frame.labels))
  {
    var m := MergeTwoTables(t1, t2).value;
    var lost := if RecoversLostRow(t1, t2) then [LabelTexts(t2.frame.labels)] else [];
    assert m.frame.rows == t1.frame.rows + (lost + t2.frame.rows);
  }

  /**
   * The merged row count is the sum, plus one exactly when the lost-row
   * recovery applies: equal widths, different labels, and no caption on
   * the second table.
   */
  lemma MergedRowCount(t1: Table, t2: Table)
    requires t1.ColumnCount() == t2.ColumnCount()
    ensures MergeTwoTables(t1, t2).value.RowCount() == t1.RowCount() + t2.RowCount() + 1 <==> RecoversLostRow(t1, t2)
    ensures !RecoversLostRow(t1, t2) ==> MergeTwoTables(t1, t2).value.RowCount() == t1.RowCount() + t2.RowCount()
  {
  }

  // ---------------------------------------------------------------------------
  // The fold
  // ---------------------------------------------------------------------------

  /** One step of the fold: `Some` merged table, `None` to start a new one, or the failure. */
  function Step(current: Table, next: Table, strategy: Strategy): (r: Outcome<Option<Table>>)
    ensures r.Done? && r.value.Some? ==> Done(r.value.value) == MergeTwoTables(current, next)
    ensures r.Done? && r.value.None? ==> !ShouldMergeBareCaption(current, next) && ShouldMergeTables(current, next, strategy) == Done(false)
  {
    var merge := match MergeTwoTables(current, next) {
      case Done(m) => Done(Some(m))
      case TypeError => TypeError
      case ColumnUnion => ColumnUnion
    };
    if ShouldMergeBareCaption(current, next) then merge
    else
      match ShouldMergeTables(current, next, strategy)
      case Done(b) => if b then merge else Done(None)
      case TypeError => TypeError
      case ColumnUnion => ColumnUnion
  }

  /** The outcome of the fold with tables already emitted in front. */
  function PrependAll(done: seq<Table>, o: Outcome<seq<Table>>): (r: Outcome<seq<Table>>)
    ensures o.Done? <==> r.Done?
    ensures o.Done? ==> r.value == done + o.value
    ensures o.TypeError? <==> r.TypeError?
  {
    match o
    case Done(ts) => Done(done + ts)
    case TypeError => TypeError
    case ColumnUnion => ColumnUnion
  }

  /** A decision of the fold for two neighbouring tables. */
  type Stepper = (Table, Table) -> Outcome<Option<Table>>

  /** The decision `merge_tables` takes under `strategy`. */
  function StepOf(strategy: Strategy): Stepper
  {
    (current: Table, next: Table) => Step(current, next, strategy)
  }

  /**
   * `m` fuses `t1` and `t2`: it spans both tables' lines and keeps both
   * tables' rows in order, with at most one row added.
   */
  predicate Fused(t1: Table, t2: Table, m: Table)
  {
    && m.startLine == t1.startLine && m.endLine == t2.endLine
    && Sub(t1.frame.rows + t2.frame.rows, m.frame.rows)
    && |m.frame.rows| <= |t1.frame.rows| + |t2.frame.rows| + 1
  }

  /** Every table a step produces fuses the two it was given. */
  ghost predicate StepFuses(step: Stepper)
  {
    forall current: Table, next: Table :: step(current, next).Done? && step(current, next).value.Some? ==>
      Fused(current, next, step(current, next).value.value)
  }

  lemma StepOfFuses(strategy: Strategy)
    ensures StepFuses(StepOf(strategy))
  {
    forall current: Table, next: Table | StepOf(strategy)(current, next).Done? && StepOf(strategy)(current, next).value.Some?
      ensures Fused(current, next, StepOf(strategy)(current, next).value.value)
    {
      assert StepOf(strategy)(current, next) == Step(current, next, strategy);
      MergeKeepsRows(current, next);
    }
  }

  /** The fold from `current` over the remaining tables, taking `step`'s decisions. */
  function Fold(step: Stepper, current: Table, rest: seq<Table>): Outcome<seq<Table>>
    decreases |rest|
  {
    if rest == [] then Done([current])
    else
      match step(current, rest[0])
      case Done(Some(m)) => Fold(step, m, rest[1..])
      case Done(None) => PrependAll([current], Fold(step, rest[0], rest[1..]))
      case TypeError => TypeError
      case ColumnUnion => ColumnUnion
  }

  /** `merge_tables`, as a specification: no work for an empty list or `NONE`. */
  function MergeTablesSpec(tables: seq<Table>, strategy: Strategy): (r: Outcome<seq<Table>>)
    ensures tables == [] || strategy == NoMerge ==> r == Done(tables)
  {
    if tables == [] || strategy == NoMerge then Done(tables)
    else Fold(StepOf(strategy), tables[0], tables[1..])
  }

  lemma PrependAllEmpty(o: Outcome<seq<Table>>)
    ensures PrependAll([], o) == o
  {
    if o.Done? {
      assert [] + o.value == o.value;
    }
  }

  lemma PrependAllNested(done: seq<Table>, t: Table, o: Outcome<seq<Table>>)
    ensures PrependAll(done, PrependAll([t], o)) == PrependAll(done + [t], o)
  {
    if o.Done? {
      assert done + ([t] + o.value) == (done + [t]) + o.value;
    }
  }

  /** The decision of one loop turn of `merge_tables`: the bare-caption rule first, then the strategy. */
  method MergeStep(current: Table, next: Table, strategy: Strategy) returns (o: Outcome<Option<Table>>)
    ensures o == Step(current, next, strategy)
  {
    if ShouldMergeBareCaption(current, next) {
      BareCaptionSameWidth(current, next);
      var m := MergeTwoTables(current, next);
      return Done(Some(m.value));
    }
    var decision := ShouldMergeTables(current, next, strategy);
    if decision.TypeError? {
      return TypeError;
    }
    if !decision.value {
      return Done(None);
    }
    var m := MergeTwoTables(current, next);
    if !m.Done? {
      return ColumnUnion;
    }
    return Done(Some(m.value));
  }

  /** The fold over a non-empty rest after one step, with the tables already emitted in front. */
  lemma FoldAdvance(result: seq<Table>, current: Table, rest: seq<Table>, step: Stepper, o: Outcome<Option<Table>>)
    requires rest != [] && o == step(current, rest[0])
    ensures o.TypeError? ==> PrependAll(result, Fold(step, current, rest)) == TypeError
    ensures o.ColumnUnion? ==> PrependAll(result, Fold(step, current, rest)) == ColumnUnion
    ensures o.Done? && o.value.Some? ==>
      PrependAll(result, Fold(step, current, rest)) == PrependAll(result, Fold(step, o.value.value, rest[1..]))
    ensures o.Done? && o.value.None? ==>
      PrependAll(result, Fold(step, current, rest)) == PrependAll(result + [current], Fold(step, rest[0], rest[1..]))
  {
    if o.Done? && o.value.None? {
      PrependAllNested(result, current, Fold(step, rest[0], rest[1..]));
    }
  }

  /** `merge_tables`: a left fold that emits a table once the next one does not continue it. */
  method MergeTables(tables: seq<Table>, strategy: Strategy) returns (out: Outcome<seq<Table>>)
    ensures out == MergeTablesSpec(tables, strategy)
  {
    if |tables| == 0 || strategy == NoMerge {
      return Done(tables);
    }
    var result: seq<Table> := [];
    var current := tables[0];
    var i := 1;
    PrependAllEmpty(Fold(StepOf(strategy), current, tables[i..]));
    while i < |tables|
      invariant 1 <= i <= |tables|
      invariant MergeTablesSpec(tables, strategy) == PrependAll(result, Fold(StepOf(strategy), current, tables[i..]))
    {
      var next := tables[i];
      ghost var rest := tables[i..];
      assert rest[0] == next && rest[1..] == tables[i + 1..];
      var step := MergeStep(current, next, strategy);
      FoldAdvance(result, current, rest, StepOf(strategy), step);
      if step.TypeError? {
        return TypeError;
      } else if step.ColumnUnion? {
        return ColumnUnion;
      } else if step.value.Some? {
        current := step.value.value;
      } else {
        result := result + [current];
        current := next;
      }
      i := i + 1;
    }
    assert tables[i..] == [];
    result := result + [current];
    out := Done(result);
  }

  // ---------------------------------------------------------------------------
  // Rows in order: a subsequence
  // ---------------------------------------------------------------------------

  /** `a` is `b` with some elements left out, the rest in order. */
  predicate Sub<T(==)>(a: seq<T>, b: seq<T>)
    decreases |b|
  {
    if a == [] then true
    else if b == [] then false
    else (a[0] == b[0] && Sub(a[1..], b[1..])) || Sub(a, b[1..])
  }

  lemma {:induction false} SubRefl<T>(a: seq<T>)
    ensures Sub(a, a)
    decreases |a|
  {
    if a != [] {
      SubRefl(a[1..]);
    }
  }

  /** Elements in front of the larger sequence change nothing. */
  lemma {:induction false} SubExtend<T>(a: seq<T>, p: seq<T>, b: seq<T>)
    requires Sub(a, b)
    ensures Sub(a, p + b)
    decreases |p|
  {
    if p != [] {
      SubExtend(a, p[1..], b);
      assert (p + b)[1..] == p[1..] + b;
    } else {
      assert p + b == b;
    }
  }

  /** Subsequences concatenate. */
  lemma {:induction false} SubAppend<T>(a1: seq<T>, b1: seq<T>, a2: seq<T>, b2: seq<T>)
    requires Sub(a1, b1) && Sub(a2, b2)
    ensures Sub(a1 + a2, b1 + b2)
    decreases |b1|
  {
    if a1 == [] {
      assert a1 + a2 == a2;
      SubExtend(a2, b1, b2);
    } else {
      assert (b1 + b2)[0] == b1[0] && (b1 + b2)[1..] == b1[1..] + b2;
      assert (a1 + a2)[0] == a1[0] && (a1 + a2)[1..] == a1[1..] + a2;
      if a1[0] == b1[0] && Sub(a1[1..], b1[1..]) {
        SubAppend(a1[1..], b1[1..], a2, b2);
      } else {
        SubAppend(a1, b1[1..], a2, b2);
      }
    }
  }

  /** Leaving out twice is leaving out once. */
  lemma {:induction false} SubTrans<T>(a: seq<T>, b: seq<T>, c: seq<T>)
    requires Sub(a, b) && Sub(b, c)
    ensures Sub(a, c)
    decreases |c|
  {
    if a != [] {
      assert b != [] && c != [];
      if Sub(b, c[1..]) {
        SubTrans(a, b, c[1..]);
      } else {
        assert b[0] == c[0] && Sub(b[1..], c[1..]);
        if a[0] == b[0] && Sub(a[1..], b[1..]) {
          SubTrans(a[1..], b[1..], c[1..]);
        } else {
          SubTrans(a, b[1..], c[1..]);
        }
      }
    }
  }

  /** Inserting rows in the middle keeps the old ones in order. */
  lemma SubInsert<T>(x: seq<T>, l: seq<T>, y: seq<T>)
    ensures Sub(x + y, x + (l + y))
  {
    SubRefl(x);
    SubRefl(y);
    SubExtend(y, l, y);
    SubAppend(x, x, y, l + y);
  }

  /** All data rows of a list of tables, table by table. */
  function AllRows(ts: seq<Table>): seq<seq<string>>
  {
    if ts == [] then [] else ts[0].frame.rows + AllRows(ts[1..])
  }

  lemma AllRowsCons(t: Table, ts: seq<Table>)
    ensures AllRows([t] + ts) == t.frame.rows + AllRows(ts)
  {
    assert ([t] + ts)[1..] == ts;
  }

  /** Fusing two tables keeps both tables' rows, in order, and adds at most the recovered row. */
  lemma MergeKeepsRows(t1: Table, t2: Table)
    requires MergeTwoTables(t1, t2).Done?
    ensures Fused(t1, t2, MergeTwoTables(t1, t2).value)
  {
    var m := MergeTwoTables(t1, t2).value;
    var lost := if RecoversLostRow(t1, t2) then [LabelTexts(t2.frame.labels)] else [];
    assert m.frame.rows == t1.frame.rows + (lost + t2.frame.rows);
    SubInsert(t1.frame.rows, lost, t2.frame.rows);
  }

  /** Replacing two neighbouring tables by their fusion keeps every row of the list in order. */
  lemma FusedKeepsRows(t1: Table, t2: Table, m: Table, ts: seq<Table>)
    requires Fused(t1, t2, m)
    ensures Sub(AllRows([t1, t2] + ts), AllRows([m] + ts))
    ensures |AllRows([m] + ts)| <= |AllRows([t1, t2] + ts)| + 1
  {
    var x, y, z := t1.frame.rows, t2.frame.rows, AllRows(ts);
    assert [t1, t2] + ts == [t1] + ([t2] + ts);
    AllRowsCons(t1, [t2] + ts);
    AllRowsCons(t2, ts);
    AllRowsCons(m, ts);
    assert AllRows([t1, t2] + ts) == (x + y) + z;
    SubRefl(z);
    SubAppend(x + y, m.frame.rows, z, z);
  }

  /** The fold after one step: a merged table carried on, or the current one emitted. */
  lemma FoldCase(current: Table, rest: seq<Table>, step: Stepper) returns (merged: Option<Table>)
    requires StepFuses(step) && rest != [] && Fold(step, current, rest).Done?
    ensures merged.Some? ==>
      && Fused(current, rest[0], merged.value)
      && Fold(step, current, rest) == Fold(step, merged.value, rest[1..])
    ensures merged.None? ==>
      && Fold(step, rest[0], rest[1..]).Done?
      && Fold(step, current, rest).value == [current] + Fold(step, rest[0], rest[1..]).value
  {
    merged := step(current, rest[0]).value;
  }

  /** The fold emits between one table and one per input, first and last keeping the span of lines. */
  lemma {:induction false} FoldShape(current: Table, rest: seq<Table>, step: Stepper)
    requires StepFuses(step) && Fold(step, current, rest).Done?
    ensures var out := Fold(step, current, rest).value;
      && 1 <= |out| <= |rest| + 1
      && out[0].startLine == current.startLine
      && out[|out| - 1].endLine == (if rest == [] then current.endLine else rest[|rest| - 1].endLine)
    decreases |rest|
  {
    if rest != [] {
      var tail := rest[1..];
      var out := Fold(step, current, rest).value;
      var s := FoldCase(current, rest, step);
      if s.Some? {
        FoldShape(s.value, tail, step);
        assert out == Fold(step, s.value, tail).value;
      } else {
        var out' := Fold(step, rest[0], tail).value;
        FoldShape(rest[0], tail, step);
        assert out == [current] + out';
      }
      if tail != [] {
        assert tail[|tail| - 1] == rest[|rest| - 1];
      }
    }
  }

  /**
   * The fold keeps every input row in order, adding at most one
   * recovered label row per merge.
   */
  lemma {:induction false} FoldRows(current: Table, rest: seq<Table>, step: Stepper)
    requires StepFuses(step) && Fold(step, current, rest).Done?
    ensures var out := Fold(step, current, rest).value;
      && Sub(AllRows([current] + rest), AllRows(out))
      && |AllRows(out)| + |out| <= |AllRows([current] + rest)| + |rest| + 1
    decreases |rest|
  {
    var out := Fold(step, current, rest).value;
    if rest == [] {
      SubRefl(AllRows([current]));
    } else {
      var next, tail := rest[0], rest[1..];
      assert rest == [next] + tail;
      var s := FoldCase(current, rest, step);
      if s.Some? {
        assert out == Fold(step, s.value, tail).value;
        FoldRows(s.value, tail, step);
        FusedKeepsRows(current, next, s.value, tail);
        assert [current] + rest == [current, next] + tail;
        var before, middle := AllRows([current] + rest), AllRows([s.value] + tail);
        assert |AllRows(out)| + |out| <= |middle| + |tail| + 1;
        assert |middle| <= |before| + 1;
        SubTrans(before, middle, AllRows(out));
      } else {
        var out' := Fold(step, next, tail).value;
        assert out == [current] + out';
        FoldRows(next, tail, step);
        assert Sub(AllRows(rest), AllRows(out')) && |AllRows(out')| + |out'| <= |AllRows(rest)| + |tail| + 1;
        AllRowsCons(current, rest);
        AllRowsCons(current, out');
        assert AllRows(out) == current.frame.rows + AllRows(out');
        SubRefl(current.frame.rows);
        SubAppend(current.frame.rows, current.frame.rows, AllRows(rest), AllRows(out'));
      }
    }
  }

  /**
   * `merge_tables` on a non-empty list: a non-empty result no longer than
   * the input, every input row kept in order, the span of lines unchanged.
   */
  lemma MergeTablesSpecProps(tables: seq<Table>, strategy: Strategy)
    requires tables != [] && MergeTablesSpec(tables, strategy).Done?
    ensures var out := MergeTablesSpec(tables, strategy).value;
      && 1 <= |out| <= |tables|
      && Sub(AllRows(tables), AllRows(out))
      && |AllRows(out)| + |out| <= |AllRows(tables)| + |tables|
      && out[0].startLine == tables[0].startLine
      && out[|out| - 1].endLine == tables[|tables| - 1].endLine
  {
    if strategy == NoMerge {
      SubRefl(AllRows(tables));
    } else {
      var first, rest := tables[0], tables[1..];
      assert tables == [first] + rest;
      assert MergeTablesSpec(tables, strategy) == Fold(StepOf(strategy), first, rest);
      StepOfFuses(strategy);
      FoldShape(first, rest, StepOf(strategy));
      FoldRows(first, rest, StepOf(strategy));
    }
  }

  // ---------------------------------------------------------------------------
  // Scenarios
  // ---------------------------------------------------------------------------

  /** Two tables merged by the step come out as one. */
  lemma PairMerges(t1: Table, t2: Table, strategy: Strategy, m: Table)
    requires strategy != NoMerge && Step(t1, t2, strategy) == Done(Some(m))
    ensures MergeTablesSpec([t1, t2], strategy) == Done([m])
  {
    assert [t1, t2][0] == t1 && [t1, t2][1..] == [t2] && [t2][1..] == [];
    assert MergeTablesSpec([t1, t2], strategy) == Fold(StepOf(strategy), t1, [t2]);
    FoldAdvance([], t1, [t2], StepOf(strategy), Step(t1, t2, strategy));
    PrependAllEmpty(Fold(StepOf(strategy), t1, [t2]));
    PrependAllEmpty(Fold(StepOf(strategy), m, []));
  }

  /** Two tables kept apart by the step come out unchanged. */
  lemma PairSeparates(t1: Table, t2: Table, strategy: Strategy)
    requires strategy != NoMerge && Step(t1, t2, strategy) == Done(None)
    ensures MergeTablesSpec([t1, t2], strategy) == Done([t1, t2])
  {
    assert [t1, t2][0] == t1 && [t1, t2][1..] == [t2] && [t2][1..] == [];
    assert MergeTablesSpec([t1, t2], strategy) == Fold(StepOf(strategy), t1, [t2]);
    FoldAdvance([], t1, [t2], StepOf(strategy), Step(t1, t2, strategy));
    PrependAllEmpty(Fold(StepOf(strategy), t1, [t2]));
    assert Fold(StepOf(strategy), t2, []) == Done([t2]);
    assert [] + [t1] + [t2] == [t1, t2];
  }

  /**
   * The interactive demo: a table followed by its flagged continuation
   * under the same named headers folds into one table holding both
   * tables' rows, under the default strategy.
   */
  lemma ContinuationMerges(t1: Table, t2: Table)
    requires t2.isContinuation && t2.caption.Some? && Trim(t2.caption.value) != []
    requires t1.frame.labels.Named? && t1.frame.labels == t2.frame.labels
    ensures MergeTablesSpec([t1, t2], IdenticalHeaders).Done?
    ensures var out := MergeTablesSpec([t1, t2], IdenticalHeaders).value;
      && |out| == 1
      && out[0].frame.rows == t1.frame.rows + t2.frame.rows
      && out[0].caption == t1.caption
  {
    ContinuationStep(t1, t2);
    var m := MergeTwoTables(t1, t2).value;
    PairMerges(t1, t2, IdenticalHeaders, m);
    assert !RecoversLostRow(t1, t2);
    assert m.frame.rows == t1.frame.rows + ([] + t2.frame.rows) && m.caption == t1.caption;
    assert [] + t2.frame.rows == t2.frame.rows;
  }

  lemma ContinuationStep(t1: Table, t2: Table)
    requires t2.isContinuation && t2.caption.Some? && Trim(t2.caption.value) != []
    requires t1.frame.labels.Named? && t1.frame.labels == t2.frame.labels
    ensures MergeTwoTables(t1, t2).Done?
    ensures Step(t1, t2, IdenticalHeaders) == Done(Some(MergeTwoTables(t1, t2).value))
  {
    Cleaner.HeadersMatchReflexive(t1.frame.labels.names, Cleaner.MatchNum, Cleaner.MatchDen);
    assert ShouldMergeTables(t1, t2, IdenticalHeaders) == Done(true);
  }

  /**
   * A following table without a caption folds into the previous one of
   * the same width under every merging strategy, its labels coming back
   * as the first of its rows when they differ.
   */
  lemma UncaptionedMerges(t1: Table, t2: Table, strategy: Strategy)
    requires strategy != NoMerge && t2.caption.None?
    requires t1.ColumnCount() == t2.ColumnCount()
    ensures MergeTablesSpec([t1, t2], strategy).Done?
    ensures var out := MergeTablesSpec([t1, t2], strategy).value;
      && |out| == 1
      && out[0].frame.rows == t1.frame.rows
           + ((if SameLabels(t1.frame.labels, t2.frame.labels) then [] else [LabelTexts(t2.frame.labels)]) + t2.frame.rows)
      && out[0].startLine == t1.startLine && out[0].endLine == t2.endLine
  {
    assert ShouldMergeBareCaption(t1, t2);
    var m := MergeTwoTables(t1, t2).value;
    assert Step(t1, t2, strategy) == Done(Some(m));
    PairMerges(t1, t2, strategy, m);
  }

  /**
   * A following table with a bare caption whose number ends in an
   * uppercase letter is never merged as a bare caption, and unless it is
   * a continuation it starts a new table whatever the strategy.
   */
  lemma UpperSuffixSeparates(t1: Table, t2: Table, strategy: Strategy, d: string, u: char)
    requires 'A' <= u <= 'Z' && !Uncaptioned(t2)
    requires t2.meta.Some? && t2.meta.value.isBare && t2.meta.value.tableNumber == Some(d + [u])
    ensures !ShouldMergeBareCaption(t1, t2)
    ensures !IsContinuationTable(t2) ==> MergeTablesSpec([t1, t2], strategy) == Done([t1, t2])
  {
    if t1.meta.Some? && t1.meta.value.tableNumber.Some? {
      UpperSuffixNotSequential(t1.meta.value.tableNumber.value, d, u);
    }
    if strategy != NoMerge && !IsContinuationTable(t2) {
      assert Step(t1, t2, strategy) == Done(None);
      PairSeparates(t1, t2, strategy);
    }
  }

  /**
   * A following table whose caption is neither bare nor a continuation
   * starts a new table whatever the strategy.
   */
  lemma NewCaptionSeparates(t1: Table, t2: Table, strategy: Strategy)
    requires t2.caption.Some? && Trim(t2.caption.value) != [] && !Parser.HasContinuationMarker(t2.caption.value)
    requires !t2.isContinuation && (t2.meta.None? || !t2.meta.value.isBare)
    ensures MergeTablesSpec([t1, t2], strategy) == Done([t1, t2])
  {
    if strategy != NoMerge {
      assert !ShouldMergeBareCaption(t1, t2);
      assert !IsContinuationTable(t2);
      assert Step(t1, t2, strategy) == Done(None);
      PairSeparates(t1, t2, strategy);
    }
  }
}
