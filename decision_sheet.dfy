/** The Decision sheet of a rules book. Its heading row lists the input
    variables, then `Decisions`, then `Execute Decision Tables`, then
    annotation headings; each body row gives the input tests that guard a
    decision, the decision's name, the decision table to run and the
    annotations. */
module DecisionSheet {
  import opened Common
  import opened TestSfeel

  const DecisionsHeading := "Decisions"
  const ExecuteHeading := "Execute Decision Tables"

  // ---------------------------------------------------------------------
  // The heading row

  datatype Phase = Inputs | DecisionColumn | Annotations

  /** The state of the heading scan: the phase and the number of input
      columns seen, or the end of the scan. */
  datatype Scan =
    | Scanning(phase: Phase, inputColumns: nat)
    | Failed(error: Error)
    | Crashed   // the error message formats a local that is not yet assigned

  function HeadingStep(glossary: map<Cell, Entry>, st: Scan, cell: Cell, col: nat): Scan
  {
    match st
    case Scanning(Inputs, n) =>
      if cell == Some(DecisionsHeading) then Scanning(DecisionColumn, n)
      else if cell !in glossary then Crashed
      else Scanning(Inputs, n + 1)
    case Scanning(DecisionColumn, n) =>
      if cell == Some(ExecuteHeading) then Scanning(Annotations, n)
      else Failed(BadDecisionHeading(cell, col))
    case _ => st
  }

  /** The heading cells scanned from left to right. */
  function ScanHeading(glossary: map<Cell, Entry>, heading: seq<Cell>): Scan
  {
    if |heading| == 0 then Scanning(Inputs, 0)
    else HeadingStep(glossary, ScanHeading(glossary, heading[..|heading| - 1]), heading[|heading| - 1], |heading| - 1)
  }

  datatype HeadingOutcome = Columns(inputColumns: nat) | HeadingError(error: Error) | HeadingCrash

  /** The checks on the heading row of a Decision table of `|heading|`
      columns. */
  function CheckHeading(glossary: map<Cell, Entry>, heading: seq<Cell>): HeadingOutcome
  {
    if |heading| < 2 then HeadingError(DecisionTooNarrow)
    else
      match ScanHeading(glossary, heading)
      case Scanning(Inputs, _) => HeadingError(MissingDecisionsHeading)
      case Scanning(DecisionColumn, _) => HeadingError(MissingExecuteHeading)
      case Scanning(Annotations, n) => Columns(n)
      case Failed(e) => HeadingError(e)
      case Crashed => HeadingCrash
  }

  /** The number of leading headings that are input variables: headings in
      the glossary up to the first `Decisions`. */
  function InputPrefix(glossary: map<Cell, Entry>, heading: seq<Cell>): (k: nat)
    ensures k <= |heading|
    ensures forall j :: 0 <= j < k ==> heading[j] != Some(DecisionsHeading) && heading[j] in glossary
    ensures k < |heading| ==> heading[k] == Some(DecisionsHeading) || heading[k] !in glossary
  {
    if |heading| == 0 || heading[0] == Some(DecisionsHeading) || heading[0] !in glossary then 0
    else 1 + InputPrefix(glossary, heading[1..])
  }

  lemma {:induction false} ScanInputs(glossary: map<Cell, Entry>, heading: seq<Cell>, m: nat)
    requires m <= |heading|
    requires forall j :: 0 <= j < m ==> heading[j] != Some(DecisionsHeading) && heading[j] in glossary
    ensures ScanHeading(glossary, heading[..m]) == Scanning(Inputs, m)
  {
    if m > 0 {
      ScanInputs(glossary, heading, m - 1);
      assert heading[..m][..m - 1] == heading[..m - 1];
    }
  }

  lemma {:induction false} ScanAfterInputs(glossary: map<Cell, Entry>, heading: seq<Cell>, k: nat, m: nat)
    requires k < m <= |heading|
    requires forall j :: 0 <= j < k ==> heading[j] != Some(DecisionsHeading) && heading[j] in glossary
    ensures heading[k] == Some(DecisionsHeading) ==>
              ScanHeading(glossary, heading[..m]) ==
                if m == k + 1 then Scanning(DecisionColumn, k)
                else if heading[k + 1] == Some(ExecuteHeading) then Scanning(Annotations, k)
                else Failed(BadDecisionHeading(heading[k + 1], k + 1))
    ensures heading[k] != Some(DecisionsHeading) && heading[k] !in glossary ==>
              ScanHeading(glossary, heading[..m]) == Crashed
  {
    assert heading[..m][..m - 1] == heading[..m - 1];
    if m == k + 1 {
      ScanInputs(glossary, heading, k);
    } else {
      ScanAfterInputs(glossary, heading, k, m - 1);
    }
  }

  /** Every outcome of the heading scan, stated through the input prefix:
      the heading is accepted exactly when the inputs are followed by
      `Decisions` and then `Execute Decision Tables`. */
  lemma HeadingCases(glossary: map<Cell, Entry>, heading: seq<Cell>)
    requires |heading| >= 2
    ensures var k := InputPrefix(glossary, heading);
            CheckHeading(glossary, heading) ==
              if k == |heading| then HeadingError(MissingDecisionsHeading)
              else if heading[k] != Some(DecisionsHeading) then HeadingCrash
              else if k + 1 == |heading| then HeadingError(MissingExecuteHeading)
              else if heading[k + 1] == Some(ExecuteHeading) then Columns(k)
              else HeadingError(BadDecisionHeading(heading[k + 1], k + 1))
  {
    var k := InputPrefix(glossary, heading);
    assert heading[..|heading|] == heading;
    if k == |heading| {
      ScanInputs(glossary, heading, k);
    } else {
      ScanAfterInputs(glossary, heading, k, |heading|);
    }
  }

  lemma {:induction false} InputPrefixExact(glossary: map<Cell, Entry>, heading: seq<Cell>, n: nat)
    requires n < |heading| && heading[n] == Some(DecisionsHeading)
    requires forall j :: 0 <= j < n ==> heading[j] != Some(DecisionsHeading) && heading[j] in glossary
    ensures InputPrefix(glossary, heading) == n
  {
    if n > 0 {
      assert heading[0] != Some(DecisionsHeading) && heading[0] in glossary;
      InputPrefixExact(glossary, heading[1..], n - 1);
    }
  }

  /** The heading is accepted with `n` input columns exactly when its first
      `n` cells are glossary variables, followed by the two fixed headings. */
  lemma HeadingAccepted(glossary: map<Cell, Entry>, heading: seq<Cell>, n: nat)
    ensures CheckHeading(glossary, heading) == Columns(n) <==>
              n + 1 < |heading|
              && (forall j :: 0 <= j < n ==> heading[j] != Some(DecisionsHeading) && heading[j] in glossary)
              && heading[n] == Some(DecisionsHeading) && heading[n + 1] == Some(ExecuteHeading)
  {
    if |heading| >= 2 {
      HeadingCases(glossary, heading);
      var k := InputPrefix(glossary, heading);
      if n + 1 < |heading|
         && (forall j :: 0 <= j < n ==> heading[j] != Some(DecisionsHeading) && heading[j] in glossary)
         && heading[n] == Some(DecisionsHeading) {
        InputPrefixExact(glossary, heading, n);
      }
    }
  }

  /** Once the scan fails or crashes, later headings change nothing. */
  lemma {:induction false} ScanStops(glossary: map<Cell, Entry>, heading: seq<Cell>, i: nat, m: nat)
    requires i <= m <= |heading|
    requires !ScanHeading(glossary, heading[..i]).Scanning?
    ensures ScanHeading(glossary, heading[..m]) == ScanHeading(glossary, heading[..i])
    decreases m
  {
    if m > i {
      ScanStops(glossary, heading, i, m - 1);
      assert heading[..m][..m - 1] == heading[..m - 1];
    }
  }

  // ---------------------------------------------------------------------
  // The body rows

  /** One row of the Decision table. */
  datatype Decision = Decision(table: Cell, inputTests: seq<(Cell, string)>, annotations: seq<(Cell, Cell)>)

  /** The input columns of a row whose cells are neither blank nor `-`. */
  function TestedColumns(row: seq<Cell>, n: nat): (cs: seq<nat>)
    ensures forall j :: 0 <= j < |cs| ==> cs[j] < n
  {
    if n == 0 then []
    else
      var cs := TestedColumns(row, n - 1);
      var c := CellAt(row, n - 1);
      if c.Some? && Strip(c.value) != "-" then cs + [n - 1] else cs
  }

  /** The tested columns are, in increasing order, exactly the input
      columns whose cells are neither blank nor `-`. */
  lemma {:induction false} TestedColumnsAre(row: seq<Cell>, n: nat)
    ensures forall i, j :: 0 <= i < j < |TestedColumns(row, n)| ==> TestedColumns(row, n)[i] < TestedColumns(row, n)[j]
    ensures forall c: nat :: c < n ==>
              (c in TestedColumns(row, n) <==> CellAt(row, c).Some? && Strip(CellAt(row, c).value) != "-")
  {
    if n > 0 {
      TestedColumnsAre(row, n - 1);
    }
  }

  /** The headings of the input columns are glossary variables. */
  predicate InputsKnown(glossary: map<Cell, Entry>, heading: seq<Cell>, n: nat)
  {
    n <= |heading| && forall c :: 0 <= c < n ==> heading[c] in glossary
  }

  /** The input test written in column `c` of row `r`, translated for the
      variable that heads the column. */
  function CellTest(ctx: Context, heading: seq<Cell>, row: seq<Cell>, r: nat, c: nat): Translation
    requires c < |heading| && heading[c] in ctx.glossary && CellAt(row, c).Some?
  {
    TestToSfeel(ctx, ctx.glossary[heading[c]].item, Coord(r, c), Strip(CellAt(row, c).value))
  }

  /** The translated input tests of the first `n` columns of row `r`,
      appending the translator's errors. */
  function InputTests(ctx: Context, heading: seq<Cell>, row: seq<Cell>, r: nat, n: nat): (res: (seq<(Cell, string)>, seq<Error>))
    requires InputsKnown(ctx.glossary, heading, n)
    ensures |res.0| == |TestedColumns(row, n)|
  {
    if n == 0 then ([], [])
    else
      var (tests, errors) := InputTests(ctx, heading, row, r, n - 1);
      var c := CellAt(row, n - 1);
      if c.None? || Strip(c.value) == "-" then (tests, errors)
      else
        var t := CellTest(ctx, heading, row, r, n - 1);
        (tests + [(heading[n - 1], t.text)], errors + t.errors)
  }

  /** The annotation columns, from `from` to the last column. */
  function AnnotationCells(heading: seq<Cell>, row: seq<Cell>, from: nat): (anns: seq<(Cell, Cell)>)
    requires from <= |heading|
    ensures |anns| == |heading| - from
    ensures forall j :: 0 <= j < |anns| ==> anns[j] == (heading[from + j], CellAt(row, from + j))
  {
    seq(|heading| - from, j requires 0 <= j < |heading| - from => (heading[from + j], CellAt(row, from + j)))
  }

  /** One more annotation column. */
  lemma AnnotationNext(heading: seq<Cell>, row: seq<Cell>, from: nat, j: nat)
    requires from + j < |heading|
    ensures AnnotationCells(heading, row, from)[..j + 1]
         == AnnotationCells(heading, row, from)[..j] + [(heading[from + j], CellAt(row, from + j))]
  {
    assert AnnotationCells(heading, row, from)[..j + 1][j] == (heading[from + j], CellAt(row, from + j));
  }

  /** What the rows loop keeps: decision table to decision name, the
      decisions in order, and the error list. */
  datatype SheetState = SheetState(decisionTables: map<Cell, Cell>, decisions: seq<Decision>, errors: seq<Error>)

  datatype RowsOutcome = RowsDone(state: SheetState) | RowsStopped(state: SheetState)

  /** One body row: its input tests are translated, then a table that is
      already scheduled stops the load. */
  function DecisionRow(ctx: Context, heading: seq<Cell>, n: nat, s: SheetState, row: seq<Cell>, r: nat): RowsOutcome
    requires InputsKnown(ctx.glossary, heading, n) && n + 2 <= |heading|
  {
    var (tests, errors) := InputTests(ctx, heading, row, r, n);
    var decision := CellAt(row, n);
    var table := CellAt(row, n + 1);
    if table in s.decisionTables then RowsStopped(s.(errors := s.errors + errors + [RepeatedTable(table, n + 1)]))
    else
      RowsDone(SheetState(s.decisionTables[table := decision],
                          s.decisions + [Decision(table, tests, AnnotationCells(heading, row, n + 2))],
                          s.errors + errors))
  }

  /** The body rows in order, the first at row offset `first`. */
  function DecisionRows(ctx: Context, heading: seq<Cell>, n: nat, s: SheetState, rows: seq<seq<Cell>>, first: nat): RowsOutcome
    requires InputsKnown(ctx.glossary, heading, n) && n + 2 <= |heading|
  {
    if |rows| == 0 then RowsDone(s)
    else
      match DecisionRows(ctx, heading, n, s, rows[..|rows| - 1], first)
      case RowsStopped(s1) => RowsStopped(s1)
      case RowsDone(s1) => DecisionRow(ctx, heading, n, s1, rows[|rows| - 1], first + |rows| - 1)
  }

  // ---------------------------------------------------------------------
  // Properties of the body rows

  /** The tables named by a sequence of decisions. */
  ghost function TablesOf(ds: seq<Decision>): set<Cell>
  {
    if |ds| == 0 then {} else TablesOf(ds[..|ds| - 1]) + {ds[|ds| - 1].table}
  }

  /** No table is named by two decisions. */
  ghost predicate DistinctTables(ds: seq<Decision>)
  {
    |ds| == 0 || (DistinctTables(ds[..|ds| - 1]) && ds[|ds| - 1].table !in TablesOf(ds[..|ds| - 1]))
  }

  /** Each decision table is scheduled once, and the map from tables to
      decisions covers exactly the scheduled tables. */
  ghost predicate Scheduled(s: SheetState)
  {
    DistinctTables(s.decisions) && s.decisionTables.Keys == TablesOf(s.decisions)
  }

  lemma {:induction false} TablesOfMeans(ds: seq<Decision>)
    ensures forall t :: t in TablesOf(ds) <==> exists i :: 0 <= i < |ds| && ds[i].table == t
  {
    if |ds| > 0 {
      var init := ds[..|ds| - 1];
      TablesOfMeans(init);
      assert TablesOf(ds) == TablesOf(init) + {ds[|ds| - 1].table};
      forall t | t in TablesOf(ds)
        ensures exists i :: 0 <= i < |ds| && ds[i].table == t
      {
        if t != ds[|ds| - 1].table {
          var i :| 0 <= i < |init| && init[i].table == t;
          assert ds[i] == init[i];
        }
      }
      forall t, i | 0 <= i < |ds| && ds[i].table == t
        ensures t in TablesOf(ds)
      {
        if i < |init| {
          assert init[i] == ds[i];
        }
      }
    }
  }

  /** The recursive definitions say what they promise: every table is
      named once, and the map's keys are exactly the tables named. */
  lemma {:induction false} ScheduledMeans(s: SheetState)
    ensures DistinctTables(s.decisions) <==>
              forall i, j :: 0 <= i < j < |s.decisions| ==> s.decisions[i].table != s.decisions[j].table
    ensures Scheduled(s) ==>
              forall t :: t in s.decisionTables <==> exists i :: 0 <= i < |s.decisions| && s.decisions[i].table == t
  {
    DistinctMeans(s.decisions);
    TablesOfMeans(s.decisions);
  }

  lemma {:induction false} DistinctMeans(ds: seq<Decision>)
    ensures DistinctTables(ds) <==> forall i, j :: 0 <= i < j < |ds| ==> ds[i].table != ds[j].table
  {
    if |ds| > 0 {
      var init := ds[..|ds| - 1];
      var last := ds[|ds| - 1].table;
      DistinctMeans(init);
      TablesOfMeans(init);
      if DistinctTables(ds) {
        forall i, j | 0 <= i < j < |ds|
          ensures ds[i].table != ds[j].table
        {
          assert ds[i] == init[i];
          if j < |init| {
            assert ds[j] == init[j];
          }
        }
      } else if DistinctTables(init) {
        var i :| 0 <= i < |init| && init[i].table == last;
        assert ds[i].table == ds[|ds| - 1].table;
      } else {
        var i, j :| 0 <= i < j < |init| && init[i].table == init[j].table;
        assert ds[i].table == ds[j].table;
      }
    }
  }

  lemma RowKeepsScheduled(ctx: Context, heading: seq<Cell>, n: nat, s: SheetState, row: seq<Cell>, r: nat)
    requires InputsKnown(ctx.glossary, heading, n) && n + 2 <= |heading|
    requires Scheduled(s)
    ensures Scheduled(DecisionRow(ctx, heading, n, s, row, r).state)
  {
    var (tests, errors) := InputTests(ctx, heading, row, r, n);
    var table := CellAt(row, n + 1);
    if table !in s.decisionTables {
      AppendKeepsScheduled(s, CellAt(row, n), Decision(table, tests, AnnotationCells(heading, row, n + 2)), s.errors + errors);
    }
  }

  lemma AppendKeepsScheduled(s: SheetState, decision: Cell, d: Decision, errors: seq<Error>)
    requires Scheduled(s) && d.table !in s.decisionTables
    ensures Scheduled(SheetState(s.decisionTables[d.table := decision], s.decisions + [d], errors))
  {
    var ds := s.decisions + [d];
    assert ds[..|ds| - 1] == s.decisions;
  }

  lemma {:induction false} RowsKeepScheduled(ctx: Context, heading: seq<Cell>, n: nat, s: SheetState, rows: seq<seq<Cell>>, first: nat)
    requires InputsKnown(ctx.glossary, heading, n) && n + 2 <= |heading|
    requires Scheduled(s)
    ensures Scheduled(DecisionRows(ctx, heading, n, s, rows, first).state)
  {
    if |rows| > 0 {
      RowsKeepScheduled(ctx, heading, n, s, rows[..|rows| - 1], first);
      var prev := DecisionRows(ctx, heading, n, s, rows[..|rows| - 1], first);
      if prev.RowsDone? {
        assert DecisionRows(ctx, heading, n, s, rows, first)
            == DecisionRow(ctx, heading, n, prev.state, rows[|rows| - 1], first + |rows| - 1);
        RowKeepsScheduled(ctx, heading, n, prev.state, rows[|rows| - 1], first + |rows| - 1);
      } else {
        assert DecisionRows(ctx, heading, n, s, rows, first) == prev;
      }
    }
  }

  /** Once a row stops the load, later rows change nothing. */
  lemma {:induction false} StoppedIsFinal(ctx: Context, heading: seq<Cell>, n: nat, s: SheetState,
                                         rows: seq<seq<Cell>>, more: seq<seq<Cell>>, first: nat)
    requires InputsKnown(ctx.glossary, heading, n) && n + 2 <= |heading|
    requires DecisionRows(ctx, heading, n, s, rows, first).RowsStopped?
    ensures DecisionRows(ctx, heading, n, s, rows + more, first) == DecisionRows(ctx, heading, n, s, rows, first)
    decreases |more|
  {
    if |more| > 0 {
      StoppedIsFinal(ctx, heading, n, s, rows, more[..|more| - 1], first);
      assert (rows + more)[..|rows + more| - 1] == rows + more[..|more| - 1];
    } else {
      assert rows + more == rows;
    }
  }

  /** A pass that stops ends with the repeated table's error. */
  lemma {:induction false} StoppedReports(ctx: Context, heading: seq<Cell>, n: nat, s: SheetState, rows: seq<seq<Cell>>, first: nat)
    requires InputsKnown(ctx.glossary, heading, n) && n + 2 <= |heading|
    requires DecisionRows(ctx, heading, n, s, rows, first).RowsStopped?
    ensures var e := DecisionRows(ctx, heading, n, s, rows, first).state.errors;
            |e| > 0 && e[|e| - 1].RepeatedTable?
  {
    if |rows| > 0 && DecisionRows(ctx, heading, n, s, rows[..|rows| - 1], first).RowsStopped? {
      StoppedReports(ctx, heading, n, s, rows[..|rows| - 1], first);
    }
  }

  /** The row `i` run on the state the rows before it leave: it extends the
      prefix by one row and, when it stops, decides the whole pass. */
  lemma RowAt(ctx: Context, heading: seq<Cell>, n: nat, s: SheetState, rows: seq<seq<Cell>>, i: nat, st: SheetState)
    requires InputsKnown(ctx.glossary, heading, n) && n + 2 <= |heading|
    requires i < |rows|
    requires DecisionRows(ctx, heading, n, s, rows[..i], 2) == RowsDone(st)
    ensures DecisionRows(ctx, heading, n, s, rows[..i + 1], 2) == DecisionRow(ctx, heading, n, st, rows[i], i + 2)
    ensures DecisionRow(ctx, heading, n, st, rows[i], i + 2).RowsStopped? ==>
              DecisionRows(ctx, heading, n, s, rows, 2) == DecisionRow(ctx, heading, n, st, rows[i], i + 2)
  {
    var pre := rows[..i + 1];
    assert pre[..|pre| - 1] == rows[..i] && pre[|pre| - 1] == rows[i];
    if DecisionRow(ctx, heading, n, st, rows[i], i + 2).RowsStopped? {
      StoppedIsFinal(ctx, heading, n, s, pre, rows[i + 1..], 2);
      assert pre + rows[i + 1..] == rows;
    }
  }

  /** A successful pass schedules one decision per row, in row order, each
      named in the map by its row's decision cell. */
  lemma {:induction false} RowsScheduleInOrder(ctx: Context, heading: seq<Cell>, n: nat, s: SheetState, rows: seq<seq<Cell>>, first: nat)
    requires InputsKnown(ctx.glossary, heading, n) && n + 2 <= |heading|
    requires DecisionRows(ctx, heading, n, s, rows, first).RowsDone?
    ensures var t := DecisionRows(ctx, heading, n, s, rows, first).state;
            |t.decisions| == |s.decisions| + |rows|
            && t.decisions[..|s.decisions|] == s.decisions
            && forall i :: 0 <= i < |rows| ==>
                 CellAt(rows[i], n + 1) in t.decisionTables
                 && t.decisions[|s.decisions| + i].table == CellAt(rows[i], n + 1)
                 && t.decisions[|s.decisions| + i].annotations == AnnotationCells(heading, rows[i], n + 2)
                 && t.decisionTables[CellAt(rows[i], n + 1)] == CellAt(rows[i], n)
  {
    if |rows| > 0 {
      var init := rows[..|rows| - 1];
      RowsScheduleInOrder(ctx, heading, n, s, init, first);
      var p := DecisionRows(ctx, heading, n, s, init, first).state;
      var t := DecisionRows(ctx, heading, n, s, rows, first).state;
      assert t.decisions[..|p.decisions|] == p.decisions;
      forall i | 0 <= i < |rows|
        ensures CellAt(rows[i], n + 1) in t.decisionTables
        ensures t.decisions[|s.decisions| + i].table == CellAt(rows[i], n + 1)
        ensures t.decisions[|s.decisions| + i].annotations == AnnotationCells(heading, rows[i], n + 2)
        ensures t.decisionTables[CellAt(rows[i], n + 1)] == CellAt(rows[i], n)
      {
        if i < |init| {
          assert init[i] == rows[i];
          assert t.decisions[|s.decisions| + i] == p.decisions[|s.decisions| + i];
          assert CellAt(rows[i], n + 1) in p.decisionTables;
          assert CellAt(rows[i], n + 1) != CellAt(rows[|rows| - 1], n + 1);
        }
      }
    }
  }

  /** A blank or `-` input cell adds no test; every other input cell adds
      exactly one, the translation of its stripped text. */
  lemma {:induction false} OneTestPerCell(ctx: Context, heading: seq<Cell>, row: seq<Cell>, r: nat, n: nat)
    requires InputsKnown(ctx.glossary, heading, n)
    ensures forall j :: 0 <= j < |TestedColumns(row, n)| ==>
              CellAt(row, TestedColumns(row, n)[j]).Some?
              && InputTests(ctx, heading, row, r, n).0[j]
                 == (heading[TestedColumns(row, n)[j]], CellTest(ctx, heading, row, r, TestedColumns(row, n)[j]).text)
  {
    if n > 0 {
      OneTestPerCell(ctx, heading, row, r, n - 1);
      var tests := InputTests(ctx, heading, row, r, n).0;
      var cs := TestedColumns(row, n);
      var tests' := InputTests(ctx, heading, row, r, n - 1).0;
      var cs' := TestedColumns(row, n - 1);
      if CellAt(row, n - 1).Some? && Strip(CellAt(row, n - 1).value) != "-" {
        assert cs == cs' + [n - 1];
        assert tests == tests' + [(heading[n - 1], CellTest(ctx, heading, row, r, n - 1).text)];
        forall j | 0 <= j < |cs|
          ensures CellAt(row, cs[j]).Some? && tests[j] == (heading[cs[j]], CellTest(ctx, heading, row, r, cs[j]).text)
        {
          if j < |cs'| {
            assert cs[j] == cs'[j] && tests[j] == tests'[j];
          }
        }
      } else {
        assert cs == cs' && tests == tests';
      }
    }
  }
}
