/** The rule engine object: it loads a rules book (a Glossary, a Decision
    table and the decision tables it schedules) into its fields, and makes
    decisions with it. The S-FEEL lexer and parser are given to the
    constructor; the S-FEEL variables live in the field `env`. */
module Engine {
  import opened Common
  import opened ValueSfeel
  import opened TestSfeel
  import HitPolicy
  import Glossary
  import opened DecisionSheet
  import opened Rules

  /** A decision table found on a sheet other than Glossary, Decision and
      Test: the text of its name cell, its hit-policy cell, its validity row
      (when it has one), the headings of its annotation columns (when it has
      any) and its rules. */
  datatype TableSource = TableSource(name: string, policyCell: Cell, validity: Option<seq<Cell>>,
                                     annotationHeadings: Option<seq<Cell>>, rules: seq<Rule>)

  datatype TablesLoad = TablesOk(tables: map<Cell, Table>) | TablesStopped(tables: map<Cell, Table>, error: Error) | TablesRaised

  /** One table found on a sheet. A name that is not scheduled is passed
      over; the hit policy is checked, then the ranks, then the rules. */
  function TableStep(names: map<Cell, Cell>, tables: map<Cell, Table>, src: TableSource): TablesLoad
  {
    if Some(src.name) !in names then TablesOk(tables)
    else
      match HitPolicy.CheckHitPolicy(src.policyCell, src.name)
      case Raised => TablesRaised
      case Rejected(e) => TablesStopped(tables, e)
      case Accepted(p) =>
        match HitPolicy.RankCheck(p, src.name, src.validity)
        case Some(e) => TablesStopped(tables, e)
        case None =>
          if |src.rules| == 0 then TablesStopped(tables, NoRules(src.name))
          else TablesOk(tables[Some(src.name) := Table(p, src.rules, src.annotationHeadings)])
  }

  /** The tables in sheet order; the first that fails stops the load. */
  function LoadTables(names: map<Cell, Cell>, tables: map<Cell, Table>, srcs: seq<TableSource>): TablesLoad
  {
    if |srcs| == 0 then TablesOk(tables)
    else
      match LoadTables(names, tables, srcs[..|srcs| - 1])
      case TablesOk(t) => TableStep(names, t, srcs[|srcs| - 1])
      case other => other
  }

  /** Every loaded table is scheduled and has a valid hit policy and at
      least one rule. */
  ghost predicate TablesValid(names: map<Cell, Cell>, tables: map<Cell, Table>)
  {
    forall t :: t in tables ==>
      t in names && tables[t].hitPolicy in HitPolicy.ValidPolicies() && |tables[t].rules| > 0
  }

  lemma {:induction false} LoadTablesValid(names: map<Cell, Cell>, srcs: seq<TableSource>)
    ensures LoadTables(names, map[], srcs).TablesOk? ==> TablesValid(names, LoadTables(names, map[], srcs).tables)
  {
    if |srcs| > 0 {
      LoadTablesValid(names, srcs[..|srcs| - 1]);
      var prev := LoadTables(names, map[], srcs[..|srcs| - 1]);
      if prev.TablesOk? {
        var src := srcs[|srcs| - 1];
        if Some(src.name) in names {
          HitPolicy.HitPolicyAccepted(src.policyCell, src.name);
        }
      }
    }
  }

  /** Once a table stops or crashes the load, later tables change nothing. */
  lemma {:induction false} TablesStopIsFinal(names: map<Cell, Cell>, tables: map<Cell, Table>,
                                            srcs: seq<TableSource>, more: seq<TableSource>)
    requires !LoadTables(names, tables, srcs).TablesOk?
    ensures LoadTables(names, tables, srcs + more) == LoadTables(names, tables, srcs)
    decreases |more|
  {
    if |more| > 0 {
      TablesStopIsFinal(names, tables, srcs, more[..|more| - 1]);
      assert (srcs + more)[..|srcs + more| - 1] == srcs + more[..|more| - 1];
    } else {
      assert srcs + more == srcs;
    }
  }

  /** Table `k` run on the tables loaded before it. */
  lemma TableAt(names: map<Cell, Cell>, tables: map<Cell, Table>, srcs: seq<TableSource>, k: nat, t: map<Cell, Table>)
    requires k < |srcs|
    requires LoadTables(names, tables, srcs[..k]) == TablesOk(t)
    ensures LoadTables(names, tables, srcs[..k + 1]) == TableStep(names, t, srcs[k])
    ensures !TableStep(names, t, srcs[k]).TablesOk? ==> LoadTables(names, tables, srcs) == TableStep(names, t, srcs[k])
  {
    var pre := srcs[..k + 1];
    assert pre[..|pre| - 1] == srcs[..k] && pre[|pre| - 1] == srcs[k];
    if !TableStep(names, t, srcs[k]).TablesOk? {
      TablesStopIsFinal(names, tables, pre, srcs[k + 1..]);
      assert pre + srcs[k + 1..] == srcs;
    }
  }

  /** The heading row of a table whose rows start at the title row. */
  function HeadingRow(cols: nat, table: seq<seq<Cell>>): (h: seq<Cell>)
    ensures |h| == cols
  {
    seq(cols, c requires 0 <= c < cols => CellAt(if |table| > 1 then table[1] else [], c))
  }

  function Body(table: seq<seq<Cell>>): seq<seq<Cell>>
  {
    if |table| > 2 then table[2..] else []
  }

  datatype LoadStatus = Loaded | LoadFailed | LoadRaised

  /** The fields of a rule engine. */
  datatype Book = Book(glossary: map<Cell, Entry>, items: map<string, Cell>, concepts: map<string, seq<Cell>>,
                       order: seq<Cell>, itemOrder: seq<string>, glossaryLoaded: bool, isLoaded: bool, errors: seq<Error>,
                       decisions: seq<Decision>, decisionTables: map<Cell, Cell>, tables: map<Cell, Table>, env: Env)

  /** `load` on a rules book whose Glossary table has `gCols` columns and
      rows `gTable` (from its title row), whose Decision table has `dCols`
      columns and rows `dTable`, and whose decision tables are `srcs`: the
      new fields and the outcome. After an exception (`LoadRaised`) the
      fields are those of the last completed step. */
  function LoadBook(b: Book, lex: string -> seq<Token>, eval: Evaluator, gCols: nat, gTable: seq<seq<Cell>>,
                    dCols: nat, dTable: seq<seq<Cell>>, srcs: seq<TableSource>): (Book, LoadStatus)
  {
    var g := Glossary.LoadGlossary(gCols, gTable);
    var b1 := b.(glossary := g.state.glossary, items := g.state.items, concepts := g.state.concepts,
                 order := g.state.order, itemOrder := g.state.itemOrder,
                 errors := if g.Stop? then [g.error] else []);
    if g.Stop? then (b1, LoadFailed)
    else AfterGlossary(b1, lex, eval, dCols, dTable, srcs)
  }

  /** Past an accepted Glossary: its items are cleared, the parser's reports
      joining the errors; any report stops the load, otherwise the Decision
      table and the decision tables start empty and are loaded. */
  function AfterGlossary(b: Book, lex: string -> seq<Token>, eval: Evaluator, dCols: nat, dTable: seq<seq<Cell>>,
                         srcs: seq<TableSource>): (Book, LoadStatus)
  {
    var (env, reports) := ClearItems(eval, b.env, b.itemOrder);
    var b2 := b.(glossaryLoaded := true, env := env, errors := b.errors + reports);
    if b.errors + reports != [] then (b2, LoadFailed)
    else LoadDecisionSheet(b2.(decisions := [], decisionTables := map[], tables := map[]), lex, dCols, dTable, srcs)
  }

  /** The Decision table and the decision tables, once the Glossary is
      loaded. */
  function LoadDecisionSheet(b: Book, lex: string -> seq<Token>, dCols: nat, dTable: seq<seq<Cell>>,
                             srcs: seq<TableSource>): (Book, LoadStatus)
  {
    var heading := HeadingRow(dCols, dTable);
    match CheckHeading(b.glossary, heading)
    case HeadingCrash => (b, LoadRaised)
    case HeadingError(e) => (b.(errors := b.errors + [e]), LoadFailed)
    case Columns(n) =>
      HeadingAccepted(b.glossary, heading, n);
      var rows := DecisionRows(Context(b.glossary, b.items, lex), heading, n,
                               SheetState(b.decisionTables, b.decisions, b.errors), Body(dTable), 2);
      var b1 := b.(decisionTables := rows.state.decisionTables, decisions := rows.state.decisions,
                   errors := rows.state.errors);
      if rows.RowsStopped? then (b1, LoadFailed)
      else LoadTablesInto(b1, srcs)
  }

  /** The decision tables, once the Decision table is loaded. */
  function LoadTablesInto(b: Book, srcs: seq<TableSource>): (Book, LoadStatus)
  {
    match LoadTables(b.decisionTables, b.tables, srcs)
    case TablesRaised => (b, LoadRaised)
    case TablesStopped(t, e) => (b.(tables := t, errors := b.errors + [e]), LoadFailed)
    case TablesOk(t) => (b.(tables := t, isLoaded := true), Loaded)
  }

  /** A rules book that loads has a consistent glossary whose items are all
      null, cleared without a parser report, a Decision table naming every
      decision table once, and only scheduled tables with a valid hit policy
      and at least one rule. */
  lemma LoadedBook(b: Book, lex: string -> seq<Token>, eval: Evaluator, gCols: nat, gTable: seq<seq<Cell>>,
                   dCols: nat, dTable: seq<seq<Cell>>, srcs: seq<TableSource>)
    requires LoadBook(b, lex, eval, gCols, gTable, dCols, dTable, srcs).1 == Loaded
    ensures var nb := LoadBook(b, lex, eval, gCols, gTable, dCols, dTable, srcs).0;
            var g := Glossary.LoadGlossary(gCols, gTable);
            && g.Continue? && Glossary.Consistent(g.state)
            && nb.glossary == g.state.glossary && nb.items == g.state.items && nb.concepts == g.state.concepts
            && nb.order == g.state.order && nb.itemOrder == g.state.itemOrder
            && ClearItems(eval, b.env, g.state.itemOrder).1 == []
            && nb.glossaryLoaded && nb.isLoaded
            && (forall item :: item in nb.items ==> Read(nb.env, item) == Null)
            && Scheduled(SheetState(nb.decisionTables, nb.decisions, nb.errors))
            && TablesValid(nb.decisionTables, nb.tables)
  {
    var g := Glossary.LoadGlossary(gCols, gTable);
    Glossary.LoadIsConsistent(gCols, gTable);
    var (env, reports) := ClearItems(eval, b.env, g.state.itemOrder);
    var b2 := b.(glossary := g.state.glossary, items := g.state.items, concepts := g.state.concepts,
                 order := g.state.order, itemOrder := g.state.itemOrder, glossaryLoaded := true, env := env,
                 errors := [], decisions := [], decisionTables := map[], tables := map[]);
    var heading := HeadingRow(dCols, dTable);
    var n := CheckHeading(b2.glossary, heading).inputColumns;
    HeadingAccepted(b2.glossary, heading, n);
    var ctx := Context(b2.glossary, b2.items, lex);
    var s0 := SheetState(map[], [], []);
    RowsKeepScheduled(ctx, heading, n, s0, Body(dTable), 2);
    var rows := DecisionRows(ctx, heading, n, s0, Body(dTable), 2);
    LoadTablesValid(rows.state.decisionTables, srcs);
  }

  /** A Glossary that loads has its items cleared at once; when the parser
      reports anything on the way, the load stops with exactly those
      reports, before the Decision table and the decision tables of an
      earlier load are discarded. */
  lemma LoadStopsOnReports(b: Book, lex: string -> seq<Token>, eval: Evaluator, gCols: nat, gTable: seq<seq<Cell>>,
                           dCols: nat, dTable: seq<seq<Cell>>, srcs: seq<TableSource>)
    requires Glossary.LoadGlossary(gCols, gTable).Continue?
    requires ClearItems(eval, b.env, Glossary.LoadGlossary(gCols, gTable).state.itemOrder).1 != []
    ensures var (nb, status) := LoadBook(b, lex, eval, gCols, gTable, dCols, dTable, srcs);
            var (env, reports) := ClearItems(eval, b.env, Glossary.LoadGlossary(gCols, gTable).state.itemOrder);
            && status == LoadFailed && nb.errors == reports && AllReports(nb.errors)
            && nb.glossaryLoaded && nb.env == env && nb.isLoaded == b.isLoaded
            && nb.decisions == b.decisions && nb.decisionTables == b.decisionTables && nb.tables == b.tables
  {
  }

  /** A load that fails or raises leaves the engine loaded or not as it was;
      one that fails reports at least one error. */
  lemma FailedLoadKeepsState(b: Book, lex: string -> seq<Token>, eval: Evaluator, gCols: nat, gTable: seq<seq<Cell>>,
                             dCols: nat, dTable: seq<seq<Cell>>, srcs: seq<TableSource>)
    ensures var (nb, status) := LoadBook(b, lex, eval, gCols, gTable, dCols, dTable, srcs);
            && (status != Loaded ==> nb.isLoaded == b.isLoaded)
            && (status == LoadFailed ==> |nb.errors| > 0)
            && (nb.isLoaded ==> b.isLoaded || nb.glossaryLoaded)
  {
    var g := Glossary.LoadGlossary(gCols, gTable);
    if g.Continue? && ClearItems(eval, b.env, g.state.itemOrder).1 == [] {
      var (env, reports) := ClearItems(eval, b.env, g.state.itemOrder);
      var b2 := b.(glossary := g.state.glossary, items := g.state.items, concepts := g.state.concepts,
                   order := g.state.order, itemOrder := g.state.itemOrder, glossaryLoaded := true, env := env,
                   errors := [], decisions := [], decisionTables := map[], tables := map[]);
      assert LoadBook(b, lex, eval, gCols, gTable, dCols, dTable, srcs) == LoadDecisionSheet(b2, lex, dCols, dTable, srcs);
      SheetKeepsState(b2, lex, dCols, dTable, srcs);
    }
  }

  /** Past the Glossary, a load that fails or raises leaves the engine
      loaded or not as it was, and one that fails reports an error. */
  lemma SheetKeepsState(b: Book, lex: string -> seq<Token>, dCols: nat, dTable: seq<seq<Cell>>, srcs: seq<TableSource>)
    ensures var (nb, status) := LoadDecisionSheet(b, lex, dCols, dTable, srcs);
            && (status != Loaded ==> nb.isLoaded == b.isLoaded)
            && (status == LoadFailed ==> |nb.errors| > 0)
            && nb.glossaryLoaded == b.glossaryLoaded
  {
    var heading := HeadingRow(dCols, dTable);
    if CheckHeading(b.glossary, heading).Columns? {
      var n := CheckHeading(b.glossary, heading).inputColumns;
      HeadingAccepted(b.glossary, heading, n);
      var ctx := Context(b.glossary, b.items, lex);
      var s := SheetState(b.decisionTables, b.decisions, b.errors);
      var rows := DecisionRows(ctx, heading, n, s, Body(dTable), 2);
      var b1 := b.(decisionTables := rows.state.decisionTables, decisions := rows.state.decisions,
                   errors := rows.state.errors);
      if rows.RowsStopped? {
        StoppedReports(ctx, heading, n, s, Body(dTable), 2);
        assert LoadDecisionSheet(b, lex, dCols, dTable, srcs) == (b1, LoadFailed);
      } else {
        assert LoadDecisionSheet(b, lex, dCols, dTable, srcs) == LoadTablesInto(b1, srcs);
        TablesKeepState(b1, srcs);
      }
    }
  }

  /** Past the Decision table, likewise. */
  lemma TablesKeepState(b: Book, srcs: seq<TableSource>)
    ensures var (nb, status) := LoadTablesInto(b, srcs);
            && (status != Loaded ==> nb.isLoaded == b.isLoaded)
            && (status == LoadFailed ==> |nb.errors| > 0)
            && nb.glossaryLoaded == b.glossaryLoaded
  {
  }

  class DMN {
    const lex: string -> seq<Token>
    const eval: Evaluator

    var glossary: map<Cell, Entry>
    var glossaryItems: map<string, Cell>
    var glossaryConcepts: map<string, seq<Cell>>
    var glossaryOrder: seq<Cell>          // the variables, in dictionary order
    var glossaryItemsOrder: seq<string>   // the items, in dictionary order
    var glossaryLoaded: bool
    var isLoaded: bool
    var errors: seq<Error>
    var decisions: seq<Decision>
    var decisionTables: map<Cell, Cell>
    var tables: map<Cell, Table>
    var env: Env

    constructor(lex: string -> seq<Token>, eval: Evaluator)
      ensures this.lex == lex && this.eval == eval
      ensures !glossaryLoaded && !isLoaded && errors == []
      ensures glossary == map[] && glossaryItems == map[] && glossaryConcepts == map[]
      ensures glossaryOrder == [] && glossaryItemsOrder == []
      ensures decisions == [] && decisionTables == map[] && tables == map[] && env == map[]
      ensures Valid()
    {
      this.lex := lex;
      this.eval := eval;
      glossary := map[];
      glossaryItems := map[];
      glossaryConcepts := map[];
      glossaryOrder := [];
      glossaryItemsOrder := [];
      glossaryLoaded := false;
      isLoaded := false;
      errors := [];
      decisions := [];
      decisionTables := map[];
      tables := map[];
      env := map[];
    }

    function Ctx(): Context
      reads this`glossary, this`glossaryItems
    {
      Context(glossary, glossaryItems, lex)
    }

    function State(): Book
      reads this
    {
      Book(glossary, glossaryItems, glossaryConcepts, glossaryOrder, glossaryItemsOrder, glossaryLoaded, isLoaded, errors,
           decisions, decisionTables, tables, env)
    }

    // -------------------------------------------------------------------
    // Serialising data

    /** `value2sfeel`; an unsupported value appends one error. */
    method Value2Sfeel(v: Value) returns (r: Sfeel)
      modifies this`errors
      ensures r == ValueToSfeel(glossary, v)
      ensures r.Text? ==> errors == old(errors)
      ensures r.NoValue? ==> errors == old(errors) + [InvalidData]
      decreases v, 1
    {
      match v {
        case Null => r := Text("null");
        case Bool(b) => r := Text(if b then "true" else "false");
        case Int(i) => r := Text(IntToDecimal(i));
        case Str(s) =>
          if Some(s) in glossary {
            r := Text(s);
          } else {
            r := Text("\"" + EscapeQuotes(s) + "\"");
          }
        case List(xs) => r := List2Sfeel(xs);
        case Dict(es) => r := Dict2Sfeel(es);
        case Unsupported =>
          errors := errors + [InvalidData];
          r := NoValue;
      }
    }

    /** `list2sfeel`: the accumulator loop over the elements. */
    method List2Sfeel(xs: seq<Value>) returns (r: Sfeel)
      modifies this`errors
      ensures r == ValueSfeel.Bracketed("[", "]", ListEncodings(glossary, xs))
      ensures r.Text? ==> errors == old(errors)
      decreases List(xs), 0
    {
      var encs := ListEncodings(glossary, xs);
      var acc := "[";
      var i := 0;
      while i < |xs|
        invariant 0 <= i <= |xs|
        invariant AllText(encs[..i])
        invariant acc == Accumulate("[", ",", Texts(encs[..i]))
        invariant errors == old(errors)
      {
        if acc != "[" {
          acc := acc + ",";
        }
        var e := Value2Sfeel(xs[i]);
        if !e.Text? {
          assert !encs[i].Text?;
          return Raised;
        }
        AccumulateNext("[", encs, i);
        acc := acc + e.text;
        i := i + 1;
      }
      assert encs[..i] == encs;
      r := Text(acc + "]");
    }

    /** `dict2sfeel`: the accumulator loop over the entries, in key order. */
    method Dict2Sfeel(es: seq<(string, Value)>) returns (r: Sfeel)
      modifies this`errors
      ensures r == ValueSfeel.Bracketed("{", "}", DictEncodings(glossary, es))
      ensures r.Text? ==> errors == old(errors)
      decreases Dict(es), 0
    {
      var encs := DictEncodings(glossary, es);
      var acc := "{";
      var i := 0;
      while i < |es|
        invariant 0 <= i <= |es|
        invariant AllText(encs[..i])
        invariant acc == Accumulate("{", ",", Texts(encs[..i]))
        invariant errors == old(errors)
      {
        if acc != "{" {
          acc := acc + ",";
        }
        var (key, value) := es[i];
        var keyText := "\"" + key + "\":";
        ghost var acc0 := acc;
        acc := acc + keyText;
        var e := Value2Sfeel(value);
        assert encs[i] == EntryEncoding(glossary, key, value);
        if !e.Text? {
          return Raised;
        }
        AccumulateNext("{", encs, i);
        acc := acc + e.text;
        assert acc == acc0 + (keyText + e.text);
        i := i + 1;
      }
      assert encs[..i] == encs;
      r := Text(acc + "}");
    }

    // -------------------------------------------------------------------
    // Loading the Glossary

    /** The Glossary table of `cols` columns, rows from its title row: the
        heading checks, then the rows until the first that fails. */
    method LoadGlossary(cols: nat, table: seq<seq<Cell>>) returns (ok: bool)
      modifies this`glossary, this`glossaryItems, this`glossaryConcepts, this`glossaryOrder, this`glossaryItemsOrder, this`errors
      ensures var res := Glossary.LoadGlossary(cols, table);
              glossary == res.state.glossary && glossaryItems == res.state.items && glossaryConcepts == res.state.concepts
              && glossaryOrder == res.state.order && glossaryItemsOrder == res.state.itemOrder
              && (ok <==> res.Continue?)
              && errors == old(errors) + (if res.Stop? then [res.error] else [])
    {
      glossary := map[];
      glossaryItems := map[];
      glossaryConcepts := map[];
      glossaryOrder, glossaryItemsOrder := [], [];
      var heading := if |table| > 1 then table[1] else [];
      if cols < 3 {
        errors := errors + [GlossaryNotThreeColumns];
        return false;
      }
      if CellAt(heading, 0) != Some("Variable") {
        errors := errors + [MissingVariableHeading];
        return false;
      }
      if CellAt(heading, 1) != Some("Business Concept") {
        errors := errors + [MissingConceptHeading];
        return false;
      }
      if CellAt(heading, 2) != Some("Attribute") {
        errors := errors + [MissingAttributeHeading];
        return false;
      }
      var res := ReadGlossaryRows(Body(table));
      glossary, glossaryItems, glossaryConcepts := res.state.glossary, res.state.items, res.state.concepts;
      glossaryOrder, glossaryItemsOrder := res.state.order, res.state.itemOrder;
      if res.Stop? {
        errors := errors + [res.error];
        return false;
      }
      ok := true;
    }

    /** The body rows of the Glossary in order, until the first that fails. */
    method ReadGlossaryRows(rows: seq<seq<Cell>>) returns (res: Glossary.Step)
      ensures res == Glossary.GlossaryRows(Glossary.Empty, rows, 2)
    {
      var s := Glossary.Empty;
      for i := 0 to |rows|
        invariant Glossary.Valid(s)
        invariant Glossary.GlossaryRows(Glossary.Empty, rows[..i], 2) == Glossary.Continue(s)
      {
        assert rows[..i + 1][..i] == rows[..i];
        var step := ReadGlossaryRow(s, rows[i], i + 2);
        if step.Stop? {
          Glossary.StopsAt(Glossary.Empty, rows, i, s, 2);
          return step;
        }
        s := step.state;
      }
      assert rows[..|rows|] == rows;
      res := Glossary.Continue(s);
    }

    /** One body row of the Glossary, at row offset `r`: the variable must
        be new and a concept in force; a concept of its own must be new and
        free of dots; the attribute must be present and free of dots. */
    method ReadGlossaryRow(s: Glossary.GlossaryState, row: seq<Cell>, r: nat) returns (res: Glossary.Step)
      requires Glossary.Valid(s)
      ensures res == Glossary.GlossaryRow(s, row, r)
    {
      var variable := CellAt(row, 0);
      var concept := CellAt(row, 1);
      var attribute := CellAt(row, 2);
      if variable in s.glossary {
        return Glossary.Stop(s, DuplicateVariable(variable, r));
      }
      if s.current.None? && concept.None? {
        return Glossary.Stop(s, MissingConcept(r));
      }
      var concepts := s.concepts;
      var current := s.current;
      if concept.Some? {
        if !Glossary.DotFree(concept.value) {
          return Glossary.Stop(s, BadConcept(concept.value, r));
        }
        if concept.value in concepts {
          return Glossary.Stop(s, DuplicateConcept(concept.value, r));
        }
        concepts := concepts[concept.value := []];
        current := concept;
      }
      var c := current.value;
      if attribute.None? || !Glossary.DotFree(attribute.value) {
        return Glossary.Stop(s.(concepts := concepts, current := current), BadAttribute(attribute, variable, c, r));
      }
      var item := c + "." + attribute.value;
      var itemOrder := if item in s.items then s.itemOrder else s.itemOrder + [item];
      res := Glossary.Continue(Glossary.GlossaryState(s.glossary[variable := Entry(item, c)],
                                                      s.items[item := variable],
                                                      concepts[c := concepts[c] + [variable]],
                                                      current, s.order + [variable], itemOrder));
    }

    // -------------------------------------------------------------------
    // Loading the Decision table

    /** The heading row of the Decision table: input variables up to
        `Decisions`, then `Execute Decision Tables`, then annotations. */
    method CheckDecisionHeading(heading: seq<Cell>) returns (r: HeadingOutcome)
      ensures r == CheckHeading(glossary, heading)
    {
      if |heading| < 2 {
        return HeadingError(DecisionTooNarrow);
      }
      var inputColumns := 0;
      var doingInputs := true;
      var doingDecisions := false;
      for col := 0 to |heading|
        invariant !(doingInputs && doingDecisions)
        invariant ScanHeading(glossary, heading[..col]) ==
                  Scanning(if doingInputs then Inputs else if doingDecisions then DecisionColumn else Annotations, inputColumns)
      {
        assert heading[..col + 1][..col] == heading[..col];
        var cell := heading[col];
        if doingInputs {
          if cell == Some(DecisionsHeading) {
            doingInputs := false;
            doingDecisions := true;
            continue;
          }
          if cell !in glossary {
            ScanStops(glossary, heading, col + 1, |heading|);
            assert heading[..|heading|] == heading;
            return HeadingCrash;
          }
          inputColumns := inputColumns + 1;
        } else if doingDecisions {
          if cell == Some(ExecuteHeading) {
            doingDecisions := false;
          } else {
            ScanStops(glossary, heading, col + 1, |heading|);
            assert heading[..|heading|] == heading;
            return HeadingError(BadDecisionHeading(cell, col));
          }
        }
      }
      assert heading[..|heading|] == heading;
      if doingInputs {
        return HeadingError(MissingDecisionsHeading);
      }
      if doingDecisions {
        return HeadingError(MissingExecuteHeading);
      }
      r := Columns(inputColumns);
    }

    function Sheet(): SheetState
      reads this`decisionTables, this`decisions, this`errors
    {
      SheetState(decisionTables, decisions, errors)
    }

    /** `initGlossary`: the statement `item <- null` for every glossary
        item, in dictionary order; the parser's reports are appended to the
        errors. Without a loaded glossary the process exits (`exited`) after
        appending an error. */
    method InitGlossary() returns (exited: bool)
      modifies this`env, this`errors
      ensures exited <==> !glossaryLoaded
      ensures !exited ==> env == ClearItems(eval, old(env), glossaryItemsOrder).0
                          && errors == old(errors) + ClearItems(eval, old(env), glossaryItemsOrder).1
      ensures exited ==> env == old(env) && errors == old(errors) + [NotLoaded]
    {
      if !glossaryLoaded {
        errors := errors + [NotLoaded];
        return true;
      }
      var e := env;
      var reports: seq<Error> := [];
      for k := 0 to |glossaryItemsOrder|
        invariant ClearItems(eval, old(env), glossaryItemsOrder[..k]) == (e, reports)
      {
        assert glossaryItemsOrder[..k + 1][..k] == glossaryItemsOrder[..k];
        var item := glossaryItemsOrder[k];
        reports := reports + Reports(eval, e, item + " <- null");
        e := e[item := Null];
      }
      assert glossaryItemsOrder[..|glossaryItemsOrder|] == glossaryItemsOrder;
      env, errors := e, errors + reports;
      exited := false;
    }

    /** The input cell in column `c` of row `r`: unless blank or `-`, its
        test is translated, giving the test and the translator's errors. */
    method AddInputTest(heading: seq<Cell>, row: seq<Cell>, r: nat, c: nat, tests: seq<(Cell, string)>, ghost prev: seq<Error>)
      returns (tests1: seq<(Cell, string)>, errs: seq<Error>)
      requires InputsKnown(glossary, heading, c + 1)
      requires tests == InputTests(Ctx(), heading, row, r, c).0 && prev == InputTests(Ctx(), heading, row, r, c).1
      ensures tests1 == InputTests(Ctx(), heading, row, r, c + 1).0
      ensures prev + errs == InputTests(Ctx(), heading, row, r, c + 1).1
    {
      var cell := CellAt(row, c);
      tests1, errs := tests, [];
      if cell.Some? && Strip(cell.value) != "-" {
        var t := CellTest(Ctx(), heading, row, r, c);
        tests1, errs := tests + [(heading[c], t.text)], t.errors;
      }
    }

    /** The input cells of row `r`, left to right. */
    method RowInputTests(heading: seq<Cell>, n: nat, row: seq<Cell>, r: nat) returns (tests: seq<(Cell, string)>)
      requires InputsKnown(glossary, heading, n)
      modifies this`errors
      ensures tests == InputTests(Ctx(), heading, row, r, n).0
      ensures errors == old(errors) + InputTests(Ctx(), heading, row, r, n).1
    {
      tests := [];
      var added: seq<Error> := [];
      for c := 0 to n
        invariant InputsKnown(glossary, heading, c)
        invariant tests == InputTests(Ctx(), heading, row, r, c).0
        invariant added == InputTests(Ctx(), heading, row, r, c).1
        invariant errors == old(errors)
      {
        var errs;
        tests, errs := AddInputTest(heading, row, r, c, tests, added);
        added := added + errs;
      }
      errors := errors + added;
    }

    /** The annotation cells of a row, from column `from` to the last. */
    method RowAnnotations(heading: seq<Cell>, row: seq<Cell>, from: nat) returns (annotations: seq<(Cell, Cell)>)
      requires from <= |heading|
      ensures annotations == AnnotationCells(heading, row, from)
    {
      annotations := [];
      for c := from to |heading|
        invariant annotations == AnnotationCells(heading, row, from)[..c - from]
      {
        AnnotationNext(heading, row, from, c - from);
        annotations := annotations + [(heading[c], CellAt(row, c))];
      }
      assert AnnotationCells(heading, row, from)[..|heading| - from] == AnnotationCells(heading, row, from);
    }

    /** One body row of the Decision table, at row offset `r`, whose first
        `n` columns are inputs: the cells left to right, the tests
        translated, the table checked, the annotations gathered; then the
        decision is scheduled. */
    method LoadDecisionRow(heading: seq<Cell>, n: nat, row: seq<Cell>, r: nat) returns (ok: bool)
      requires InputsKnown(glossary, heading, n) && n + 2 <= |heading|
      modifies this`decisionTables, this`decisions, this`errors
      ensures var res := DecisionRow(Ctx(), heading, n, old(Sheet()), row, r);
              Sheet() == res.state && (ok <==> res.RowsDone?)
    {
      var tests := RowInputTests(heading, n, row, r);
      var decision := CellAt(row, n);
      var table := CellAt(row, n + 1);
      if table in decisionTables {
        errors := errors + [RepeatedTable(table, n + 1)];
        return false;
      }
      var annotations := RowAnnotations(heading, row, n + 2);
      decisionTables := decisionTables[table := decision];
      decisions := decisions + [Decision(table, tests, annotations)];
      ok := true;
    }

    /** The body rows of the Decision table in order; a repeated table
        stops the load. */
    method LoadDecisionRows(heading: seq<Cell>, n: nat, rows: seq<seq<Cell>>) returns (ok: bool)
      requires InputsKnown(glossary, heading, n) && n + 2 <= |heading|
      modifies this`decisionTables, this`decisions, this`errors
      ensures var res := DecisionRows(Ctx(), heading, n, old(Sheet()), rows, 2);
              Sheet() == res.state && (ok <==> res.RowsDone?)
    {
      ghost var s0 := Sheet();
      for i := 0 to |rows|
        invariant DecisionRows(Ctx(), heading, n, s0, rows[..i], 2) == RowsDone(Sheet())
      {
        ghost var st := Sheet();
        var rowOk := LoadDecisionRow(heading, n, rows[i], i + 2);
        RowAt(Ctx(), heading, n, s0, rows, i, st);
        if !rowOk {
          return false;
        }
      }
      assert rows[..|rows|] == rows;
      ok := true;
    }

    // -------------------------------------------------------------------
    // Loading the decision tables

    /** The decision tables found on the other sheets, in sheet order: a
        table that is not scheduled is passed over; the hit policy, the
        ranks and the rules of the others are checked and the table is
        stored. The first failure stops the load. */
    method LoadDecisionTables(srcs: seq<TableSource>) returns (status: LoadStatus)
      modifies this`tables, this`errors
      ensures var res := LoadTables(decisionTables, old(tables), srcs);
              && (status == Loaded <==> res.TablesOk?)
              && (status == LoadRaised <==> res.TablesRaised?)
              && (res.TablesOk? ==> tables == res.tables && errors == old(errors))
              && (res.TablesStopped? ==> tables == res.tables && errors == old(errors) + [res.error])
    {
      ghost var t0 := tables;
      for k := 0 to |srcs|
        invariant LoadTables(decisionTables, t0, srcs[..k]) == TablesOk(tables)
        invariant errors == old(errors)
      {
        TableAt(decisionTables, t0, srcs, k, tables);
        var src := srcs[k];
        if Some(src.name) in decisionTables {
          match HitPolicy.CheckHitPolicy(src.policyCell, src.name) {
            case Raised =>
              return LoadRaised;
            case Rejected(e) =>
              errors := errors + [e];
              return LoadFailed;
            case Accepted(policy) =>
              var missing := HitPolicy.RankCheck(policy, src.name, src.validity);
              if missing.Some? {
                errors := errors + [missing.value];
                return LoadFailed;
              }
              if |src.rules| == 0 {
                errors := errors + [NoRules(src.name)];
                return LoadFailed;
              }
              tables := tables[Some(src.name) := Table(policy, src.rules, src.annotationHeadings)];
          }
        }
      }
      assert srcs[..|srcs|] == srcs;
      status := Loaded;
    }

    // -------------------------------------------------------------------
    // load

    /** `load`: the Glossary, then the Decision table, then the decision
        tables; the first failure stops the load with its error. */
    method Load(gCols: nat, gTable: seq<seq<Cell>>, dCols: nat, dTable: seq<seq<Cell>>, srcs: seq<TableSource>)
      returns (status: LoadStatus)
      requires Valid()
      modifies this
      ensures Valid()
      ensures status == LoadBook(old(State()), lex, eval, gCols, gTable, dCols, dTable, srcs).1
      ensures status != LoadRaised ==> State() == LoadBook(old(State()), lex, eval, gCols, gTable, dCols, dTable, srcs).0
    {
      errors := [];
      var ok := LoadGlossary(gCols, gTable);
      Glossary.LoadIsOrdered(gCols, gTable);
      if ok {
        status := LoadAfterGlossary(dCols, dTable, srcs);
      } else {
        status := LoadFailed;
      }
    }

    /** Past an accepted Glossary: the items are cleared, then the Decision
        table and the decision tables are loaded. */
    method LoadAfterGlossary(dCols: nat, dTable: seq<seq<Cell>>, srcs: seq<TableSource>) returns (status: LoadStatus)
      modifies this`glossaryLoaded, this`env, this`errors, this`decisions, this`decisionTables, this`tables, this`isLoaded
      ensures status == AfterGlossary(old(State()), lex, eval, dCols, dTable, srcs).1
      ensures status != LoadRaised ==> State() == AfterGlossary(old(State()), lex, eval, dCols, dTable, srcs).0
      ensures glossaryLoaded
    {
      var ok := StartSheets();
      if !ok {
        return LoadFailed;
      }
      status := LoadSheets(dCols, dTable, srcs);
    }

    /** A loaded Glossary: its items are cleared; when the parser reports
        anything the load stops there, otherwise the Decision table and the
        decision tables start empty. */
    method StartSheets() returns (ok: bool)
      modifies this`glossaryLoaded, this`env, this`errors, this`decisions, this`decisionTables, this`tables
      ensures var (e, reports) := ClearItems(eval, old(env), glossaryItemsOrder);
              var b := old(State()).(glossaryLoaded := true, env := e, errors := old(errors) + reports);
              (ok <==> old(errors) + reports == [])
              && State() == if ok then b.(decisions := [], decisionTables := map[], tables := map[]) else b
    {
      glossaryLoaded := true;
      var exited := InitGlossary();
      if errors != [] {
        return false;
      }
      decisions := [];
      decisionTables := map[];
      tables := map[];
      ok := true;
    }

    /** The Decision table, then the decision tables. */
    method LoadSheets(dCols: nat, dTable: seq<seq<Cell>>, srcs: seq<TableSource>) returns (status: LoadStatus)
      modifies this`decisionTables, this`decisions, this`errors, this`tables, this`isLoaded
      ensures status == LoadDecisionSheet(old(State()), lex, dCols, dTable, srcs).1
      ensures status != LoadRaised ==> State() == LoadDecisionSheet(old(State()), lex, dCols, dTable, srcs).0
    {
      var heading := HeadingRow(dCols, dTable);
      var h := CheckDecisionHeading(heading);
      match h {
        case HeadingCrash =>
          return LoadRaised;
        case HeadingError(e) =>
          errors := errors + [e];
          return LoadFailed;
        case Columns(n) =>
          HeadingAccepted(glossary, heading, n);
          var ok := LoadDecisionRows(heading, n, Body(dTable));
          if !ok {
            return LoadFailed;
          }
          status := LoadDecisionTables(srcs);
          if status == Loaded {
            isLoaded := true;
          }
      }
    }

    // -------------------------------------------------------------------
    // decide

    /** The tests of a rule or of a decision, in order: each reads its
        variable's item, then is evaluated; the first false test ends the
        loop; a variable missing from the glossary raises. */
    method TestsPass(tests: seq<(Cell, string)>) returns (r: Option<bool>, reports: seq<Error>)
      ensures r == RuleMatches(glossary, eval, env, tests)
      ensures reports == TestReports(glossary, eval, env, tests)
    {
      reports := [];
      for k := 0 to |tests|
        invariant RuleMatches(glossary, eval, env, tests) == RuleMatches(glossary, eval, env, tests[k..])
        invariant TestReports(glossary, eval, env, tests) == reports + TestReports(glossary, eval, env, tests[k..])
      {
        TestsFrom(glossary, eval, env, tests, k, reports);
        var (variable, test) := tests[k];
        if variable !in glossary {
          return None, reports;
        }
        var item := glossary[variable].item;
        var here := Reports(eval, env, item) + Reports(eval, env, test);
        if !Truthy(eval.evaluate(env, test)) {
          return Some(false), reports + here;
        }
        reports := reports + here;
      }
      assert tests[|tests|..] == [];
      assert reports + [] == reports;
      r := Some(true);
    }

    /** The rule loop of a table under `policy`. */
    method SelectRules(policy: string, rules: seq<Rule>) returns (sel: Selection, reports: seq<Error>)
      ensures sel == Select(glossary, eval, env, policy, rules)
      ensures sel.Selection? ==> reports == SelectReports(glossary, eval, env, policy, rules)
    {
      var acc := NoSelection;
      reports := [];
      var i := 0;
      while i < |rules|
        invariant i <= |rules| && acc.Selection? && acc.found.None?
        invariant SelectFrom(glossary, eval, env, policy, rules, i, acc) == Select(glossary, eval, env, policy, rules)
        invariant reports == RulesReports(glossary, eval, env, rules, i)
        decreases |rules| - i
      {
        var hit, here := TestsPass(rules[i].tests);
        reports := reports + here;
        match hit {
          case None =>
            return SelectRaised, reports;
          case Some(false) =>
          case Some(true) =>
            if FirstHitPolicy(policy) {
              return acc.(found := Some(i)), reports;
            } else if CollectPolicy(policy) {
              acc := acc.(ranked := acc.ranked + [i]);
            } else if RankPolicy(policy) {
              if acc.ranks != [] {
                return SelectRaised, reports;
              }
              acc := acc.(ranks := [i]);
            }
        }
        i := i + 1;
      }
      sel := acc;
    }

    /** `Result` before any rule runs: every glossary variable, in
        dictionary order, with the unquoted value of its item. */
    method StartResults() returns (r: Raises<Results>, reports: seq<Error>)
      requires Ordered()
      ensures r == InitialResults(glossary, env)
      ensures r.Ok? ==> reports == ResultReports(glossary, eval, env, glossaryOrder)
    {
      var results: Results := map[];
      reports := [];
      assert forall v :: v in glossary <==> v in glossaryOrder;
      for k := 0 to |glossaryOrder|
        invariant forall j :: 0 <= j < k ==> glossaryOrder[j] in results
        invariant forall v :: v in results ==> v in glossary && Unquote(Read(env, glossary[v].item)) == Ok(results[v])
        invariant reports == ResultReports(glossary, eval, env, glossaryOrder[..k])
      {
        var v := glossaryOrder[k];
        assert glossaryOrder[..k + 1][..k] == glossaryOrder[..k];
        var item := glossary[v].item;
        reports := reports + Reports(eval, env, item);
        var value := Unquote(Read(env, item));
        if value.Raise? {
          return Raise, reports;
        }
        results := results[v := value.value];
      }
      assert glossaryOrder[..|glossaryOrder|] == glossaryOrder;
      assert results == map v | v in glossary :: Unquote(Read(env, glossary[v].item)).value;
      r := Ok(results);
    }

    /** The outputs of the chosen rule: each is assigned to its variable's
        item and read back, unquoted, into the results. */
    method SetRuleOutputs(outs: seq<(Cell, string)>, results: Results) returns (r: Raises<Results>, reports: seq<Error>)
      modifies this`env
      ensures var spec := SetOutputs(glossary, eval, (old(env), results), outs);
              (r.Raise? <==> spec.Raise?) && (r.Ok? ==> spec.value == (env, r.value))
      ensures r.Ok? ==> reports == OutputsReports(glossary, eval, (old(env), results), outs)
    {
      ghost var st0 := (env, results);
      var res := results;
      reports := [];
      for k := 0 to |outs|
        invariant SetOutputs(glossary, eval, st0, outs[..k]) == Ok((env, res))
        invariant reports == OutputsReports(glossary, eval, st0, outs[..k])
      {
        OutputAt(glossary, eval, st0, outs, k, (env, res));
        var (variable, text) := outs[k];
        if variable !in glossary {
          return Raise, reports;
        }
        var item := glossary[variable].item;
        var said := Reports(eval, env, item + " <- " + text);
        env := Assign(eval, env, item, text);
        reports := reports + (said + Reports(eval, env, item));
        var value := Unquote(Read(env, item));
        if value.Raise? {
          return Raise, reports;
        }
        res := res[variable := value.value];
      }
      assert outs[..|outs|] == outs;
      r := Ok(res);
    }

    /** The annotations of the executed rule, under the table's headings. */
    method CollectAnnotations(table: Table, rule: Rule) returns (r: Raises<seq<(Cell, Cell)>>)
      ensures r == RuleAnnotations(table, rule)
    {
      if table.annotationHeadings.None? {
        return Ok([]);
      }
      var headings := table.annotationHeadings.value;
      var anns: seq<(Cell, Cell)> := [];
      for k := 0 to |headings|
        invariant k <= |rule.annotation|
        invariant |anns| == k && forall j :: 0 <= j < k ==> anns[j] == (headings[j], rule.annotation[j])
      {
        if k >= |rule.annotation| {
          return Raise;
        }
        anns := anns + [(headings[k], rule.annotation[k])];
      }
      assert |headings| <= |rule.annotation|;
      assert RuleAnnotations(table, rule).Ok?;
      assert RuleAnnotations(table, rule).value == anns;
      r := Ok(anns);
    }

    /** The chosen rule `i` of a U, A, F or P table. */
    method RunChosen(table: Table, decision: Cell, d: Decision, results: Results, i: nat) returns (out: TableOutcome, reports: seq<Error>)
      requires i < |table.rules|
      modifies this`env
      ensures out == RunSingle(glossary, eval, old(env), results, table, decision, d, i)
      ensures out.Done? ==> env == out.env
      ensures out.Done? ==> reports == OutputsReports(glossary, eval, (old(env), results), table.rules[i].outputs)
    {
      var rule := table.rules[i];
      var outputs;
      outputs, reports := SetRuleOutputs(rule.outputs, results);
      if outputs.Raise? {
        return TableRaised, reports;
      }
      var anns := CollectAnnotations(table, rule);
      if anns.Raise? {
        return TableRaised, reports;
      }
      out := Done(NewData(outputs.value, Some(Executed(decision, d.table, rule.ruleId)), d.annotations, anns.value), env);
    }

    /** The outputs of one collected rule: before the first, a false result
        is reset; each output is assigned, read back and combined into the
        results. */
    method AggregateOutputs(policy: string, outs: seq<(Cell, string)>, results: Results) returns (r: Raises<Results>, reports: seq<Error>)
      requires |policy| > 0
      modifies this`env
      ensures var spec := AggOutputs(glossary, eval, policy, (old(env), results), outs);
              (r.Raise? <==> spec.Raise?) && (r.Ok? ==> spec.value == (env, r.value))
      ensures r.Ok? ==> reports == AggReports(glossary, eval, policy, (old(env), results), outs)
    {
      ghost var st0 := (env, results);
      var res := results;
      var first := true;
      reports := [];
      for k := 0 to |outs|
        invariant first <==> k == 0
        invariant AggOutputs(glossary, eval, policy, st0, outs[..k]) == Ok((env, res))
        invariant reports == AggReports(glossary, eval, policy, st0, outs[..k])
      {
        AggAt(glossary, eval, policy, st0, outs, k, (env, res));
        var (variable, text) := outs[k];
        if variable !in glossary {
          return Raise, reports;
        }
        var item := glossary[variable].item;
        if first {
          var reset := Reset(policy, variable, item, res);
          if reset.Raise? {
            return Raise, reports;
          }
          res := reset.value;
          first := false;
        }
        var said := Reports(eval, env, item + " <- " + text);
        env := Assign(eval, env, item, text);
        reports := reports + (said + Reports(eval, env, item));
        var output := Unquote(Read(env, item));
        if output.Raise? || variable !in res {
          return Raise, reports;
        }
        var combined := Combine(policy, res[variable], output.value);
        if combined.Raise? {
          return Raise, reports;
        }
        res := res[variable := combined.value];
      }
      assert outs[..|outs|] == outs;
      r := Ok(res);
    }

    /** The collected rules `ranked` of an R or C table, in order. */
    method RunCollected(table: Table, decision: Cell, tableName: Cell, results: Results, ranked: seq<nat>)
      returns (r: Raises<Run>, reports: seq<Error>)
      requires |table.hitPolicy| > 0
      requires forall k :: 0 <= k < |ranked| ==> ranked[k] < |table.rules|
      modifies this`env
      ensures var spec := RankedRuns(glossary, eval, table, decision, tableName, Run(old(env), results, None, []), ranked);
              (r.Raise? <==> spec.Raise?) && (r.Ok? ==> r == spec && env == r.value.env)
      ensures r.Ok? ==> reports == RankedReports(glossary, eval, table, decision, tableName, Run(old(env), results, None, []), ranked)
    {
      var run := Run(env, results, None, []);
      ghost var st0 := run;
      reports := [];
      for k := 0 to |ranked|
        invariant RankedRuns(glossary, eval, table, decision, tableName, st0, ranked[..k]) == Ok(run)
        invariant reports == RankedReports(glossary, eval, table, decision, tableName, st0, ranked[..k])
        invariant env == run.env
      {
        RankedAt(glossary, eval, table, decision, tableName, st0, ranked, k, run);
        var rule := table.rules[ranked[k]];
        var agg, here := AggregateOutputs(table.hitPolicy, rule.outputs, run.results);
        if agg.Raise? {
          return Raise, reports;
        }
        reports := reports + here;
        var anns := CollectAnnotations(table, rule);
        if anns.Raise? {
          return Raise, reports;
        }
        run := Run(env, agg.value, Some(Executed(decision, tableName, rule.ruleId)), run.annotations + anns.value);
      }
      assert ranked[..|ranked|] == ranked;
      r := Ok(run);
    }

    /** One scheduled decision: its input tests, the rule loop, the starting
        results, then the policy's branch. */
    method RunDecisionTable(d: Decision) returns (out: TableOutcome, reports: seq<Error>)
      requires Ordered()
      modifies this`env
      ensures out == RunDecision(glossary, eval, tables, decisionTables, old(env), d)
      ensures !out.TableRaised? ==> reports == DecisionReports(glossary, glossaryOrder, eval, tables, decisionTables, old(env), d)
      ensures out.Done? ==> env == out.env
      ensures out.Skipped? || out.NoMatch? ==> env == old(env)
    {
      var pass: Option<bool>;
      pass, reports := TestsPass(d.inputTests);
      if pass != Some(true) {
        out := if pass.None? then TableRaised else Skipped;
        return;
      }
      var more;
      out, more := RunSelected(d);
      reports := reports + more;
    }

    /** A decision whose input tests pass: the rule loop, the starting
        results, then the policy's branch. */
    method RunSelected(d: Decision) returns (out: TableOutcome, reports: seq<Error>)
      requires Ordered() && InputsPass(glossary, eval, env, d) == Some(true)
      modifies this`env
      ensures out == RunDecision(glossary, eval, tables, decisionTables, old(env), d)
      ensures !out.TableRaised? ==> TestReports(glossary, eval, old(env), d.inputTests) + reports
                                      == DecisionReports(glossary, glossaryOrder, eval, tables, decisionTables, old(env), d)
      ensures out.Done? ==> env == out.env
      ensures out.Skipped? || out.NoMatch? ==> env == old(env)
    {
      if d.table !in tables || d.table !in decisionTables || |tables[d.table].hitPolicy| == 0 {
        return TableRaised, [];
      }
      ghost var env0 := env;
      var table := tables[d.table];
      var sel, selected := SelectRules(table.hitPolicy, table.rules);
      SelectFromInRange(glossary, eval, env, table.hitPolicy, table.rules, 0, NoSelection);
      if sel.SelectRaised? {
        return TableRaised, [];
      }
      var start, read := StartResults();
      if start.Raise? {
        return TableRaised, [];
      }
      DecisionReportsAfterTests(glossary, glossaryOrder, eval, tables, decisionTables, env0, d);
      var ran;
      out, ran := RunHitPolicy(table, decisionTables[d.table], d, start.value, sel);
      reports := selected + read + ran;
      Regrouped(TestReports(glossary, eval, env0, d.inputTests), selected, read, ran);
    }

    /** The branch of the table's hit policy. */
    method RunHitPolicy(table: Table, decision: Cell, d: Decision, results: Results, sel: Selection)
      returns (out: TableOutcome, reports: seq<Error>)
      requires |table.hitPolicy| > 0 && SelectionInRange(sel, |table.rules|)
      modifies this`env
      ensures out == RunPolicy(glossary, eval, old(env), results, table, decision, d, sel)
      ensures out.Done? || out.NoMatch? ==> reports == PolicyReports(glossary, eval, old(env), results, table, decision, d, sel)
      ensures out.Done? ==> env == out.env
      ensures out.NoMatch? ==> env == old(env)
    {
      var policy := table.hitPolicy;
      reports := [];
      if FirstHitPolicy(policy) {
        if sel.found.None? {
          return NoMatch(d.table), [];
        }
        out, reports := RunChosen(table, decision, d, results, sel.found.value);
      } else if CollectPolicy(policy) {
        if sel.ranked == [] {
          return NoMatch(d.table), [];
        }
        var run;
        run, reports := RunCollected(table, decision, d.table, results, sel.ranked[1..]);
        if run.Raise? {
          return TableRaised, reports;
        }
        var decisionAnns := if run.value.executed.Some? then d.annotations else [];
        out := Done(NewData(run.value.results, run.value.executed, decisionAnns, run.value.annotations), env);
      } else if policy[0] == 'P' {
        if sel.ranks == [] {
          return NoMatch(d.table), [];
        }
        out, reports := RunChosen(table, decision, d, results, sel.ranks[0]);
      } else if policy[0] == 'O' {
        if sel.ranks == [] {
          return NoMatch(d.table), [];
        }
        out := TableRaised;
      } else {
        out := Done(NewData(results, None, [], []), env);
      }
    }

    /** The order fields list the glossary's variables and items, each
        once. */
    ghost predicate Ordered()
      reads this`glossary, this`glossaryItems, this`glossaryOrder, this`glossaryItemsOrder
    {
      Glossary.OrderedBy(glossary, glossaryItems, glossaryOrder, glossaryItemsOrder)
    }

    /** A loaded engine has a loaded glossary, whose orders list its
        variables and items. */
    ghost predicate Valid()
      reads this
    {
      (isLoaded ==> glossaryLoaded) && Ordered()
    }

    /** The data loop: each datum is written as S-FEEL and assigned to its
        variable's item; an unknown variable stops the loop. */
    method AssignData(data: seq<(string, Value)>) returns (l: DataLoad)
      modifies this`errors, this`env
      ensures l == LoadData(glossary, eval, old(env), data)
      ensures l.Loading? ==> env == l.env && errors == old(errors) + l.errors
      ensures l.UnknownVariable? ==> env == l.env && errors == old(errors) + l.errors
    {
      ghost var env0 := env;
      ghost var errors0 := errors;
      var validData := true;
      var added: seq<Error> := [];
      for k := 0 to |data|
        invariant LoadData(glossary, eval, env0, data[..k]).Loading?
        invariant var sofar := LoadData(glossary, eval, env0, data[..k]);
                  env == sofar.env && added == sofar.errors && validData == sofar.valid
        invariant errors == errors0 + added
      {
        DatumAt(glossary, eval, env0, data, k, env, added, validData);
        var r, more := AssignDatum(data[k], added, validData);
        match r {
          case DataRaised =>
            return DataRaised;
          case UnknownVariable(_, _) =>
            return r;
          case Loading(_, now, valid) =>
            added, validData := now, valid;
        }
      }
      assert data[..|data|] == data;
      l := Loading(env, added, validData);
    }

    /** One datum of the data loop: `more` is what it adds to the errors
        (the invalid-data error, or the parser's reports). */
    method AssignDatum(datum: (string, Value), added: seq<Error>, validData: bool) returns (r: DataLoad, more: seq<Error>)
      modifies this`errors, this`env
      ensures r == LoadDatum(glossary, eval, old(env), added, validData, datum)
      ensures !r.DataRaised? ==> env == r.env && r.errors == added + more && errors == old(errors) + more
    {
      var (variable, value) := datum;
      if Some(variable) !in glossary {
        more := [VariableNotInGlossary(variable)];
        errors := errors + more;
        return UnknownVariable(added + more, env), more;
      }
      var item := glossary[Some(variable)].item;
      var text := Value2Sfeel(value);
      match text {
        case Raised =>
          return DataRaised, [];
        case NoValue =>
          more := [InvalidData];
          r := Loading(env, added + more, false);
        case Text(t) =>
          more := Reports(eval, env, item + " <- " + t);
          errors := errors + more;
          env := Assign(eval, env, item, t);
          r := Loading(env, added + more, validData);
      }
    }

    /** The decisions loop: every scheduled decision in order, the
        environment carrying over; an unmatched table ends it. */
    method RunScheduled() returns (p: Progress, reports: seq<Error>)
      requires Ordered()
      modifies this`env
      ensures p == RunDecisions(glossary, eval, tables, decisionTables, old(env), decisions)
      ensures !p.Aborted? ==> reports == DecisionsReports(glossary, glossaryOrder, eval, tables, decisionTables, old(env), decisions)
      ensures p.Progress? ==> env == p.env
      ensures p.Unmatched? ==> env == p.env
    {
      ghost var env1 := env;
      var all: seq<NewData> := [];
      reports := [];
      for k := 0 to |decisions|
        invariant RunDecisions(glossary, eval, tables, decisionTables, env1, decisions[..k]) == Progress(env, all)
        invariant reports == DecisionsReports(glossary, glossaryOrder, eval, tables, decisionTables, env1, decisions[..k])
      {
        DecisionAt(glossary, glossaryOrder, eval, tables, decisionTables, env1, decisions, k, env, all);
        var out, here := RunDecisionTable(decisions[k]);
        if out.TableRaised? {
          return Aborted, reports;
        }
        reports := reports + here;
        match out {
          case Skipped =>
          case NoMatch(t) =>
            return Unmatched(t, env), reports;
          case Done(newData, _) =>
            all := all + [newData];
        }
      }
      assert decisions[..|decisions|] == decisions;
      p := Progress(env, all);
    }

    /** `decide`: the glossary items are cleared, the data is assigned,
        then the scheduled decisions run in order; the error list, with the
        parser's reports, is returned and emptied. */
    method Decide(data: seq<(string, Value)>) returns (d: Decided)
      requires Valid()
      modifies this`errors, this`env
      ensures Valid()
      ensures d == Rules.Decide(glossary, glossaryOrder, glossaryItemsOrder, eval, tables, decisionTables, decisions,
                                isLoaded, old(env), data)
      ensures d.Decided? ==> env == d.env && errors == []
    {
      errors := [];
      if !isLoaded {
        d := Decided([NotLoaded], NoAnswer, env);
        errors := [];
        return;
      }
      var exited := InitGlossary();
      assert !exited;
      ghost var env0 := env;
      ghost var cleared := errors;
      assert env0 == ClearItems(eval, old(env), glossaryItemsOrder).0;
      assert [] + ClearItems(eval, old(env), glossaryItemsOrder).1 == ClearItems(eval, old(env), glossaryItemsOrder).1;
      assert cleared == ClearItems(eval, old(env), glossaryItemsOrder).1;
      var l := AssignData(data);
      assert l == LoadData(glossary, eval, env0, data);
      if l.DataRaised? {
        return DecideRaised;
      }
      if l.UnknownVariable? || !l.valid {
        d := Decided(errors, NoAnswer, env);
        errors := [];
        return;
      }
      assert errors == cleared + l.errors;
      var p, reports := RunScheduled();
      assert p == RunDecisions(glossary, eval, tables, decisionTables, l.env, decisions);
      match p {
        case Aborted =>
          return DecideRaised;
        case Unmatched(t, _) =>
          errors := errors + reports + [NoRulesMatched(t)];
          d := Decided(errors, NoAnswer, env);
        case Progress(_, all) =>
          errors := errors + reports;
          d := Decided(errors, if |all| == 1 then One(all[0]) else Many(all), env);
      }
      errors := [];
    }
  }
}
