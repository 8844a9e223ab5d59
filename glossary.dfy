/** The Glossary sheet of a rules book: each body row names a business
    variable, its business concept (blank: the concept of the row above)
    and its attribute, and defines the S-FEEL item `Concept.Attribute` that
    stands for the variable. */
module Glossary {
  import opened Common

  /** What the row loop builds: variable to entry, item to variable, concept
      to its variables in row order, and the concept in force. Python
      dictionaries keep their insertion order, which later loops follow:
      `order` lists the variables in row order and `itemOrder` the items in
      the order they were first defined. */
  datatype GlossaryState = GlossaryState(
    glossary: map<Cell, Entry>,
    items: map<string, Cell>,
    concepts: map<string, seq<Cell>>,
    current: Option<string>,
    order: seq<Cell>,
    itemOrder: seq<string>)

  /** The state of the loop continues, or the load stops with an error; the
      state then holds what was changed before the failing check. */
  datatype Step = Continue(state: GlossaryState) | Stop(state: GlossaryState, error: Error)

  const Empty := GlossaryState(map[], map[], map[], None, [], [])

  /** The concept in force has been registered. */
  ghost predicate Valid(s: GlossaryState)
  {
    s.current.Some? ==> s.current.value in s.concepts
  }

  /** A concept or attribute may not contain a dot: the item is split at it. */
  predicate DotFree(s: string)
  {
    !Contains(s, ".")
  }

  /** One body row (row offset `r` from the title cell). */
  function GlossaryRow(s: GlossaryState, row: seq<Cell>, r: nat): (res: Step)
    requires Valid(s)
    ensures Valid(res.state)
    ensures res.Continue? ==> res.state.current.Some?
  {
    var variable := CellAt(row, 0);
    var concept := CellAt(row, 1);
    var attribute := CellAt(row, 2);
    if variable in s.glossary then Stop(s, DuplicateVariable(variable, r))
    else if s.current.None? && concept.None? then Stop(s, MissingConcept(r))
    else if concept.Some? && !DotFree(concept.value) then Stop(s, BadConcept(concept.value, r))
    else if concept.Some? && concept.value in s.concepts then Stop(s, DuplicateConcept(concept.value, r))
    else
      var s1 := if concept.Some? then s.(concepts := s.concepts[concept.value := []], current := concept) else s;
      var c := s1.current.value;
      if attribute.None? || !DotFree(attribute.value) then Stop(s1, BadAttribute(attribute, variable, c, r))
      else
        var item := c + "." + attribute.value;
        Continue(GlossaryState(s1.glossary[variable := Entry(item, c)],
                               s1.items[item := variable],
                               s1.concepts[c := s1.concepts[c] + [variable]],
                               s1.current,
                               s1.order + [variable],
                               if item in s1.items then s1.itemOrder else s1.itemOrder + [item]))
  }

  /** The rows in order, the first at row offset `first`; the first row that
      fails stops the load. */
  function GlossaryRows(s: GlossaryState, rows: seq<seq<Cell>>, first: nat): (res: Step)
    requires Valid(s)
    ensures Valid(res.state)
  {
    if |rows| == 0 then Continue(s)
    else
      match GlossaryRows(s, rows[..|rows| - 1], first)
      case Stop(s1, e) => Stop(s1, e)
      case Continue(s1) => GlossaryRow(s1, rows[|rows| - 1], first + |rows| - 1)
  }

  /** The heading checks and the body of a Glossary table of `cols` columns
      whose rows start at the title row. */
  function LoadGlossary(cols: nat, table: seq<seq<Cell>>): (res: Step)
    ensures Valid(res.state)
  {
    var heading := if |table| > 1 then table[1] else [];
    if cols < 3 then Stop(Empty, GlossaryNotThreeColumns)
    else if CellAt(heading, 0) != Some("Variable") then Stop(Empty, MissingVariableHeading)
    else if CellAt(heading, 1) != Some("Business Concept") then Stop(Empty, MissingConceptHeading)
    else if CellAt(heading, 2) != Some("Attribute") then Stop(Empty, MissingAttributeHeading)
    else GlossaryRows(Empty, if |table| > 2 then table[2..] else [], 2)
  }

  // ---------------------------------------------------------------------
  // Properties

  /** The concept a row is filed under. */
  function RowConcept(s: GlossaryState, row: seq<Cell>): Option<string>
  {
    if CellAt(row, 1).Some? then CellAt(row, 1) else s.current
  }

  /** A row is accepted exactly when its variable is new, it has a concept
      (its own or the one above), its own concept is new and dot free, and
      its attribute is present and dot free; the variable then stands for
      `concept.attribute` and that item stands for the variable. */
  lemma RowAccepted(s: GlossaryState, row: seq<Cell>, r: nat)
    requires Valid(s)
    ensures GlossaryRow(s, row, r).Continue? <==>
              CellAt(row, 0) !in s.glossary && RowConcept(s, row).Some?
              && (CellAt(row, 1).Some? ==> DotFree(CellAt(row, 1).value) && CellAt(row, 1).value !in s.concepts)
              && CellAt(row, 2).Some? && DotFree(CellAt(row, 2).value)
    ensures GlossaryRow(s, row, r).Continue? ==>
              var n := GlossaryRow(s, row, r).state;
              var c := RowConcept(s, row).value;
              var item := c + "." + CellAt(row, 2).value;
              n.glossary == s.glossary[CellAt(row, 0) := Entry(item, c)]
              && n.items == s.items[item := CellAt(row, 0)]
              && CellAt(row, 0) in n.concepts[c]
              && n.current == Some(c)
              && n.order == s.order + [CellAt(row, 0)]
              && n.itemOrder == if item in s.items then s.itemOrder else s.itemOrder + [item]
  {
  }

  /** A blank concept cell files the variable under the concept of the row
      above. */
  lemma BlankConceptInherits(s: GlossaryState, row: seq<Cell>, r: nat)
    requires Valid(s) && CellAt(row, 1).None? && GlossaryRow(s, row, r).Continue?
    ensures s.current.Some?
    ensures GlossaryRow(s, row, r).state.glossary[CellAt(row, 0)].concept == s.current.value
  {
  }

  /** `order` lists each variable once and `itemOrder` each item once. */
  ghost predicate Ordered(s: GlossaryState)
  {
    OrderedBy(s.glossary, s.items, s.order, s.itemOrder)
  }

  ghost predicate OrderedBy(glossary: map<Cell, Entry>, items: map<string, Cell>, order: seq<Cell>, itemOrder: seq<string>)
  {
    && (forall v :: v in glossary <==> v in order)
    && (forall i :: i in items <==> i in itemOrder)
    && Distinct(order) && Distinct(itemOrder)
  }

  /** No element occurs twice. */
  ghost predicate Distinct<T>(xs: seq<T>)
  {
    |xs| == 0 || (Distinct(xs[..|xs| - 1]) && xs[|xs| - 1] !in xs[..|xs| - 1])
  }

  /** The invariant of a glossary under construction. Every item belongs to
      a variable whose item it is; every variable's entry is filed under a
      registered, dot free concept, and its item is registered; the orders
      list the variables and the items. */
  ghost predicate Consistent(s: GlossaryState)
  {
    && Ordered(s)
    && (forall item :: item in s.items ==> s.items[item] in s.glossary && s.glossary[s.items[item]].item == item)
    && (forall v :: v in s.glossary ==> s.glossary[v].item in s.items)
    && (forall v :: v in s.glossary ==>
          s.glossary[v].concept in s.concepts && v in s.concepts[s.glossary[v].concept]
          && DotFree(s.glossary[v].concept))
    && (s.current.Some? ==> DotFree(s.current.value))
    && Valid(s)
  }

  lemma RowKeepsConsistent(s: GlossaryState, row: seq<Cell>, r: nat)
    requires Consistent(s)
    ensures Consistent(GlossaryRow(s, row, r).state)
  {
    var variable := CellAt(row, 0);
    var concept := CellAt(row, 1);
    if GlossaryRow(s, row, r).Continue? {
      var n := GlossaryRow(s, row, r).state;
      var c := RowConcept(s, row).value;
      var item := c + "." + CellAt(row, 2).value;
      var concepts1 := if concept.Some? then s.concepts[c := []] else s.concepts;
      assert variable !in s.glossary && c in concepts1 && DotFree(c);
      assert n == GlossaryState(s.glossary[variable := Entry(item, c)], s.items[item := variable],
                                concepts1[c := concepts1[c] + [variable]], Some(c), s.order + [variable],
                                if item in s.items then s.itemOrder else s.itemOrder + [item]);
      AddKeepsConsistent(s, variable, item, c, concepts1);
    }
  }

  /** Filing a new variable with its item under a dot free concept keeps a
      glossary consistent, when the concepts already registered keep their
      variables. */
  lemma AddKeepsConsistent(s: GlossaryState, variable: Cell, item: string, c: string, concepts1: map<string, seq<Cell>>)
    requires Consistent(s) && variable !in s.glossary && DotFree(c) && c in concepts1
    requires forall k :: k in s.concepts ==> k in concepts1 && concepts1[k] == s.concepts[k]
    ensures Consistent(GlossaryState(s.glossary[variable := Entry(item, c)], s.items[item := variable],
                                     concepts1[c := concepts1[c] + [variable]], Some(c), s.order + [variable],
                                     if item in s.items then s.itemOrder else s.itemOrder + [item]))
  {
    var n := GlossaryState(s.glossary[variable := Entry(item, c)], s.items[item := variable],
                           concepts1[c := concepts1[c] + [variable]], Some(c), s.order + [variable],
                           if item in s.items then s.itemOrder else s.itemOrder + [item]);
    AddKeepsOrdered(s, variable, item, n);
    assert Ordered(n);
    AddKeepsItems(s, variable, item, c, n);
    AddKeepsConcepts(s, variable, item, c, concepts1, n);
  }

  lemma AddKeepsItems(s: GlossaryState, variable: Cell, item: string, c: string, n: GlossaryState)
    requires Consistent(s) && variable !in s.glossary
    requires n.glossary == s.glossary[variable := Entry(item, c)]
    requires n.items == s.items[item := variable]
    ensures forall i :: i in n.items ==> n.items[i] in n.glossary && n.glossary[n.items[i]].item == i
    ensures forall v :: v in n.glossary ==> n.glossary[v].item in n.items
  {
    forall i | i in n.items
      ensures n.items[i] in n.glossary && n.glossary[n.items[i]].item == i
    {
      if i != item {
        var w := s.items[i];
        assert w != variable;
      }
    }
  }

  lemma AddKeepsConcepts(s: GlossaryState, variable: Cell, item: string, c: string, concepts1: map<string, seq<Cell>>, n: GlossaryState)
    requires Consistent(s) && variable !in s.glossary && DotFree(c) && c in concepts1
    requires forall k :: k in s.concepts ==> k in concepts1 && concepts1[k] == s.concepts[k]
    requires n.glossary == s.glossary[variable := Entry(item, c)]
    requires n.concepts == concepts1[c := concepts1[c] + [variable]] && n.current == Some(c)
    ensures forall v :: v in n.glossary ==>
              n.glossary[v].concept in n.concepts && v in n.concepts[n.glossary[v].concept]
              && DotFree(n.glossary[v].concept)
    ensures Valid(n)
  {
    forall w | w in n.glossary
      ensures n.glossary[w].concept in n.concepts && w in n.concepts[n.glossary[w].concept]
    {
      if w != variable {
        var cw := s.glossary[w].concept;
        assert cw in s.concepts && w in s.concepts[cw];
        assert w in concepts1[cw];
      }
    }
  }

  lemma AddKeepsOrdered(s: GlossaryState, variable: Cell, item: string, n: GlossaryState)
    requires Ordered(s) && variable !in s.glossary
    requires variable in n.glossary && n.glossary == s.glossary[variable := n.glossary[variable]]
    requires n.items == s.items[item := variable]
    requires n.order == s.order + [variable]
    requires n.itemOrder == if item in s.items then s.itemOrder else s.itemOrder + [item]
    ensures Ordered(n)
  {
    assert variable !in s.order;
    assert n.order[..|s.order|] == s.order;
    if item !in s.items {
      assert item !in s.itemOrder;
      assert n.itemOrder[..|s.itemOrder|] == s.itemOrder;
    }
  }

  lemma {:induction false} RowsKeepConsistent(s: GlossaryState, rows: seq<seq<Cell>>, first: nat)
    requires Consistent(s)
    ensures Consistent(GlossaryRows(s, rows, first).state)
  {
    if |rows| > 0 {
      RowsKeepConsistent(s, rows[..|rows| - 1], first);
      var prev := GlossaryRows(s, rows[..|rows| - 1], first);
      if prev.Continue? {
        assert GlossaryRows(s, rows, first) == GlossaryRow(prev.state, rows[|rows| - 1], first + |rows| - 1);
        RowKeepsConsistent(prev.state, rows[|rows| - 1], first + |rows| - 1);
      } else {
        assert GlossaryRows(s, rows, first).state == prev.state;
      }
    }
  }

  /** Whatever the load stops on, the glossary it leaves is consistent. */
  lemma LoadIsConsistent(cols: nat, table: seq<seq<Cell>>)
    ensures Consistent(LoadGlossary(cols, table).state)
  {
    if |table| > 2 {
      RowsKeepConsistent(Empty, table[2..], 2);
    }
  }

  /** Whatever the load stops on, its orders list the glossary's variables
      and items, each once. */
  lemma LoadIsOrdered(cols: nat, table: seq<seq<Cell>>)
    ensures Ordered(LoadGlossary(cols, table).state)
  {
    LoadIsConsistent(cols, table);
  }

  /** A successful load defines one variable per body row. */
  lemma {:induction false} RowsDefineOneVariableEach(s: GlossaryState, rows: seq<seq<Cell>>, first: nat)
    requires Valid(s)
    requires GlossaryRows(s, rows, first).Continue?
    ensures |GlossaryRows(s, rows, first).state.glossary| == |s.glossary| + |rows|
  {
    if |rows| > 0 {
      RowsDefineOneVariableEach(s, rows[..|rows| - 1], first);
    }
  }

  /** A row that stops the rows loop decides its outcome. */
  lemma StopsAt(s0: GlossaryState, rows: seq<seq<Cell>>, i: nat, s: GlossaryState, first: nat)
    requires Valid(s0) && i < |rows|
    requires GlossaryRows(s0, rows[..i], first) == Continue(s)
    requires GlossaryRow(s, rows[i], first + i).Stop?
    ensures GlossaryRows(s0, rows, first) == GlossaryRow(s, rows[i], first + i)
  {
    var pre := rows[..i + 1];
    assert pre[..|pre| - 1] == rows[..i] && pre[|pre| - 1] == rows[i] && first + |pre| - 1 == first + i;
    var last := GlossaryRow(s, rows[i], first + i);
    assert GlossaryRows(s0, pre, first) == last;
    StopIsFinal(s0, pre, rows[i + 1..], first);
    assert pre + rows[i + 1..] == rows;
  }

  /** Once a row stops the load, later rows change nothing. */
  lemma {:induction false} StopIsFinal(s: GlossaryState, rows: seq<seq<Cell>>, more: seq<seq<Cell>>, first: nat)
    requires Valid(s) && GlossaryRows(s, rows, first).Stop?
    ensures GlossaryRows(s, rows + more, first) == GlossaryRows(s, rows, first)
    decreases |more|
  {
    if |more| > 0 {
      var init := more[..|more| - 1];
      StopIsFinal(s, rows, init, first);
      assert (rows + more)[..|rows + more| - 1] == rows + init;
    } else {
      assert rows + more == rows;
    }
  }
}
