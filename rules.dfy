/** Making a decision: the input data is written into the S-FEEL
    environment, then each scheduled decision table whose input tests pass
    selects rules by its hit policy, sets or aggregates their outputs, and
    reports the result. The S-FEEL parser is the parameter `eval`: it
    evaluates a text in an environment and returns the error messages the
    parser gives for it. */
module Rules {
  import opened Common
  import opened ValueSfeel
  import opened DecisionSheet

  /** The values of the S-FEEL items. */
  type Env = map<string, Value>

  /** The `Result` dictionary of a decision, keyed by glossary variable. */
  type Results = map<Cell, Value>

  /** The S-FEEL parser: `evaluate` is the value of a text in an
      environment, `reports` the messages the parser returns for it in its
      status. Every call of `sfeel` appends those messages to the errors. */
  datatype Evaluator = Evaluator(evaluate: (Env, string) -> Value, reports: (Env, string) -> seq<string>)

  /** The errors one call `sfeel(text)` appends. */
  function Reports(eval: Evaluator, env: Env, text: string): (es: seq<Error>)
    ensures AllReports(es) && |es| == |eval.reports(env, text)|
  {
    var ms := eval.reports(env, text);
    seq(|ms|, k requires 0 <= k < |ms| => ParserError(ms[k]))
  }

  /** Every entry is a message of the S-FEEL parser. */
  predicate AllReports(es: seq<Error>)
  {
    forall k :: 0 <= k < |es| ==> es[k].ParserError?
  }

  /** A computation that may raise a Python exception. */
  datatype Raises<T> = Ok(value: T) | Raise

  /** The value of an item; an item never assigned is null. */
  function Read(env: Env, item: string): Value
  {
    if item in env then env[item] else Null
  }

  /** The S-FEEL statement `item <- text`. */
  function Assign(eval: Evaluator, env: Env, item: string, text: string): (e: Env)
    ensures Read(e, item) == eval.evaluate(env, text)
    ensures forall other :: other != item ==> Read(e, other) == Read(env, other)
  {
    env[item := eval.evaluate(env, text)]
  }

  /** Python truthiness. A value of a type the model does not represent
      counts as true. */
  predicate Truthy(v: Value)
  {
    match v
    case Null => false
    case Bool(b) => b
    case Int(i) => i != 0
    case Str(s) => s != ""
    case List(xs) => xs != []
    case Dict(es) => es != []
    case Unsupported => true
  }

  /** A string value that starts and ends with `"` loses both quotes; the
      empty string makes the first-character test raise. */
  function Unquote(v: Value): Raises<Value>
  {
    match v
    case Str(s) =>
      if |s| == 0 then Raise
      else if s[0] == '"' && s[|s| - 1] == '"' then Ok(Str(if |s| == 1 then "" else s[1..|s| - 1]))
      else Ok(v)
    case _ => Ok(v)
  }

  lemma UnquoteFacts(v: Value, s: string)
    ensures Unquote(Str("\"" + s + "\"")) == Ok(Str(s))
    ensures Unquote(Str("")) == Raise
    ensures !v.Str? ==> Unquote(v) == Ok(v)
    ensures s != [] && s[0] != '"' ==> Unquote(Str(s)) == Ok(Str(s))
  {
    var q := "\"" + s + "\"";
    assert q[1..|q| - 1] == s;
  }

  // ---------------------------------------------------------------------
  // Python arithmetic and comparison on the values

  function AsNumber(v: Value): Option<int>
  {
    match v
    case Bool(b) => Some(if b then 1 else 0)
    case Int(i) => Some(i)
    case _ => None
  }

  function Chars(s: string): (vs: seq<Value>)
    ensures |vs| == |s| && forall k :: 0 <= k < |s| ==> vs[k] == Str([s[k]])
  {
    seq(|s|, k requires 0 <= k < |s| => Str([s[k]]))
  }

  function Keys(es: seq<(string, Value)>): (vs: seq<Value>)
    ensures |vs| == |es| && forall k :: 0 <= k < |es| ==> vs[k] == Str(es[k].0)
  {
    seq(|es|, k requires 0 <= k < |es| => Str(es[k].0))
  }

  /** `a += b`: numbers add (a bool counts as 0 or 1), strings concatenate,
      a list is extended by the elements of a list, the characters of a
      string or the keys of a dictionary; anything else raises. */
  function PyAdd(a: Value, b: Value): Raises<Value>
  {
    if AsNumber(a).Some? && AsNumber(b).Some? then Ok(Int(AsNumber(a).value + AsNumber(b).value))
    else match (a, b)
      case (Str(x), Str(y)) => Ok(Str(x + y))
      case (List(xs), List(ys)) => Ok(List(xs + ys))
      case (List(xs), Str(y)) => Ok(List(xs + Chars(y)))
      case (List(xs), Dict(es)) => Ok(List(xs + Keys(es)))
      case _ => Raise
  }

  /** Lexicographic order of strings by code point. */
  predicate StrLess(a: string, b: string)
  {
    if |b| == 0 then false
    else if |a| == 0 then true
    else if a[0] != b[0] then a[0] < b[0]
    else StrLess(a[1..], b[1..])
  }

  /** `a < b`: numbers and strings compare; other operands raise. */
  function PyLess(a: Value, b: Value): Raises<bool>
  {
    if AsNumber(a).Some? && AsNumber(b).Some? then Ok(AsNumber(a).value < AsNumber(b).value)
    else if a.Str? && b.Str? then Ok(StrLess(a.s, b.s))
    else Raise
  }

  // ---------------------------------------------------------------------
  // Rules and tables

  /** A rule of a decision table: its id, its input tests and its output
      assignments, each against a glossary variable, and its annotations. */
  datatype Rule = Rule(ruleId: string, tests: seq<(Cell, string)>, outputs: seq<(Cell, string)>, annotation: seq<Cell>)

  /** A parsed decision table: its hit policy, its rules in order and the
      headings of its annotation columns, when it has any. */
  datatype Table = Table(hitPolicy: string, rules: seq<Rule>, annotationHeadings: Option<seq<Cell>>)

  /** The tests of a rule in order: the first false test fails the rule; a
      test on a variable missing from the glossary raises (`None`). */
  function RuleMatches(glossary: map<Cell, Entry>, eval: Evaluator, env: Env, tests: seq<(Cell, string)>): Option<bool>
  {
    if |tests| == 0 then Some(true)
    else if tests[0].0 !in glossary then None
    else if !Truthy(eval.evaluate(env, tests[0].1)) then Some(false)
    else RuleMatches(glossary, eval, env, tests[1..])
  }

  /** A rule matches exactly when every test is on a known variable and
      evaluates true; a rule without tests always matches. */
  lemma {:induction false} RuleMatchesIff(glossary: map<Cell, Entry>, eval: Evaluator, env: Env, tests: seq<(Cell, string)>)
    ensures RuleMatches(glossary, eval, env, tests) == Some(true) <==>
              forall k :: 0 <= k < |tests| ==> tests[k].0 in glossary && Truthy(eval.evaluate(env, tests[k].1))
    ensures tests == [] ==> RuleMatches(glossary, eval, env, tests) == Some(true)
  {
    if |tests| > 0 {
      RuleMatchesIff(glossary, eval, env, tests[1..]);
      assert forall k :: 1 <= k < |tests| ==> tests[k] == tests[1..][k - 1];
    }
  }
  /** What the tests of a rule report while they are evaluated: each test
      reads its variable's item, then evaluates the test; the first false
      test ends the loop. */
  function TestReports(glossary: map<Cell, Entry>, eval: Evaluator, env: Env, tests: seq<(Cell, string)>): (es: seq<Error>)
    ensures AllReports(es)
  {
    if tests == [] || tests[0].0 !in glossary then []
    else
      var here := Reports(eval, env, glossary[tests[0].0].item) + Reports(eval, env, tests[0].1);
      if !Truthy(eval.evaluate(env, tests[0].1)) then here
      else here + TestReports(glossary, eval, env, tests[1..])
  }

  /** One step of the tests loop, from test `k` on. */
  lemma TestsFrom(glossary: map<Cell, Entry>, eval: Evaluator, env: Env, tests: seq<(Cell, string)>, k: nat, before: seq<Error>)
    requires k < |tests|
    ensures tests[k].0 !in glossary ==>
              RuleMatches(glossary, eval, env, tests[k..]) == None
              && before + TestReports(glossary, eval, env, tests[k..]) == before
    ensures tests[k].0 in glossary ==>
              var here := Reports(eval, env, glossary[tests[k].0].item) + Reports(eval, env, tests[k].1);
              if !Truthy(eval.evaluate(env, tests[k].1)) then
                RuleMatches(glossary, eval, env, tests[k..]) == Some(false)
                && before + TestReports(glossary, eval, env, tests[k..]) == before + here
              else
                RuleMatches(glossary, eval, env, tests[k..]) == RuleMatches(glossary, eval, env, tests[k + 1..])
                && before + TestReports(glossary, eval, env, tests[k..])
                   == (before + here) + TestReports(glossary, eval, env, tests[k + 1..])
  {
    assert tests[k..][0] == tests[k] && tests[k..][1..] == tests[k + 1..];
    assert before + [] == before;
  }

  function Matches(glossary: map<Cell, Entry>, eval: Evaluator, env: Env, rules: seq<Rule>, i: nat): Option<bool>
    requires i < |rules|
  {
    RuleMatches(glossary, eval, env, rules[i].tests)
  }

  /** What the rule loop collects: the first match (U, A, F), the matches in
      order (R, C) and the rank list (P, O). */
  datatype Selection = Selection(found: Option<nat>, ranked: seq<nat>, ranks: seq<nat>) | SelectRaised

  predicate FirstHitPolicy(policy: string)
  {
    policy in ["U", "A", "F"]
  }

  predicate CollectPolicy(policy: string)
  {
    |policy| > 0 && policy[0] in "RC"
  }

  predicate RankPolicy(policy: string)
  {
    policy in ["P", "O"]
  }

  /** The rule loop from rule `i` on. A second match under P or O reaches
      the rank insertion, which raises. */
  function SelectFrom(glossary: map<Cell, Entry>, eval: Evaluator, env: Env, policy: string, rules: seq<Rule>, i: nat, acc: Selection): Selection
    decreases |rules| - i
  {
    if i >= |rules| || acc.SelectRaised? then acc
    else match Matches(glossary, eval, env, rules, i)
      case None => SelectRaised
      case Some(false) => SelectFrom(glossary, eval, env, policy, rules, i + 1, acc)
      case Some(true) =>
        if FirstHitPolicy(policy) then acc.(found := Some(i))
        else if CollectPolicy(policy) then SelectFrom(glossary, eval, env, policy, rules, i + 1, acc.(ranked := acc.ranked + [i]))
        else if RankPolicy(policy) then
          if acc.ranks == [] then SelectFrom(glossary, eval, env, policy, rules, i + 1, acc.(ranks := [i]))
          else SelectRaised
        else SelectFrom(glossary, eval, env, policy, rules, i + 1, acc)
  }

  const NoSelection := Selection(None, [], [])

  function Select(glossary: map<Cell, Entry>, eval: Evaluator, env: Env, policy: string, rules: seq<Rule>): Selection
  {
    SelectFrom(glossary, eval, env, policy, rules, 0, NoSelection)
  }

  /** The first rule from `i` on whose tests do not fail, or `|rules|`. */
  function FirstHit(glossary: map<Cell, Entry>, eval: Evaluator, env: Env, rules: seq<Rule>, i: nat): (k: nat)
    requires i <= |rules|
    ensures i <= k <= |rules|
    ensures forall j :: i <= j < k ==> Matches(glossary, eval, env, rules, j) == Some(false)
    ensures k < |rules| ==> Matches(glossary, eval, env, rules, k) != Some(false)
    decreases |rules| - i
  {
    if i == |rules| || Matches(glossary, eval, env, rules, i) != Some(false) then i
    else FirstHit(glossary, eval, env, rules, i + 1)
  }

  lemma {:induction false} FirstHitSelectedFrom(glossary: map<Cell, Entry>, eval: Evaluator, env: Env, policy: string, rules: seq<Rule>, i: nat)
    requires FirstHitPolicy(policy) && i <= |rules|
    ensures var k := FirstHit(glossary, eval, env, rules, i);
            SelectFrom(glossary, eval, env, policy, rules, i, NoSelection) ==
              if k == |rules| then NoSelection
              else if Matches(glossary, eval, env, rules, k) == Some(true) then NoSelection.(found := Some(k))
              else SelectRaised
    decreases |rules| - i
  {
    if i < |rules| && Matches(glossary, eval, env, rules, i) == Some(false) {
      FirstHitSelectedFrom(glossary, eval, env, policy, rules, i + 1);
    }
  }

  /** Under U, A and F the chosen rule is the lowest-numbered rule whose
      tests all pass; no rule is chosen when every rule fails. */
  lemma FirstMatchChosen(glossary: map<Cell, Entry>, eval: Evaluator, env: Env, policy: string, rules: seq<Rule>, i: nat)
    requires FirstHitPolicy(policy)
    requires Select(glossary, eval, env, policy, rules).Selection?
    ensures Select(glossary, eval, env, policy, rules).found == Some(i) <==>
              i < |rules| && Matches(glossary, eval, env, rules, i) == Some(true)
              && forall j :: 0 <= j < i ==> Matches(glossary, eval, env, rules, j) == Some(false)
    ensures Select(glossary, eval, env, policy, rules).found == None <==>
              forall j :: 0 <= j < |rules| ==> Matches(glossary, eval, env, rules, j) == Some(false)
  {
    FirstHitSelectedFrom(glossary, eval, env, policy, rules, 0);
    var k := FirstHit(glossary, eval, env, rules, 0);
    if i < |rules| && Matches(glossary, eval, env, rules, i) == Some(true)
       && forall j :: 0 <= j < i ==> Matches(glossary, eval, env, rules, j) == Some(false) {
      assert k <= i;
    }
    if k < |rules| {
      assert Matches(glossary, eval, env, rules, k) == Some(true);
    }
  }

  /** The matching rules from `i` on, in ascending order. */
  function MatchingFrom(glossary: map<Cell, Entry>, eval: Evaluator, env: Env, rules: seq<Rule>, i: nat): (ms: seq<nat>)
    requires i <= |rules|
    ensures forall j :: 0 <= j < |ms| ==> i <= ms[j] < |rules|
    decreases |rules| - i
  {
    if i == |rules| then []
    else if Matches(glossary, eval, env, rules, i) == Some(true) then [i] + MatchingFrom(glossary, eval, env, rules, i + 1)
    else MatchingFrom(glossary, eval, env, rules, i + 1)
  }

  lemma {:induction false} MatchingFromIs(glossary: map<Cell, Entry>, eval: Evaluator, env: Env, rules: seq<Rule>, i: nat)
    requires i <= |rules|
    ensures var ms := MatchingFrom(glossary, eval, env, rules, i);
            (forall j :: i <= j < |rules| ==> (j in ms <==> Matches(glossary, eval, env, rules, j) == Some(true)))
            && forall a, b :: 0 <= a < b < |ms| ==> ms[a] < ms[b]
    decreases |rules| - i
  {
    if i < |rules| {
      MatchingFromIs(glossary, eval, env, rules, i + 1);
    }
  }

  /** No rule from `i` on tests a variable missing from the glossary. */
  predicate NoRaise(glossary: map<Cell, Entry>, eval: Evaluator, env: Env, rules: seq<Rule>, i: nat)
  {
    forall j :: i <= j < |rules| ==> Matches(glossary, eval, env, rules, j).Some?
  }

  lemma {:induction false} CollectedFrom(glossary: map<Cell, Entry>, eval: Evaluator, env: Env, policy: string, rules: seq<Rule>, i: nat, acc: seq<nat>)
    requires CollectPolicy(policy) && !FirstHitPolicy(policy) && i <= |rules|
    ensures SelectFrom(glossary, eval, env, policy, rules, i, Selection(None, acc, [])) ==
              if NoRaise(glossary, eval, env, rules, i) then Selection(None, acc + MatchingFrom(glossary, eval, env, rules, i), [])
              else SelectRaised
    decreases |rules| - i
  {
    if i < |rules| {
      var m := Matches(glossary, eval, env, rules, i);
      if m == Some(true) {
        CollectedFrom(glossary, eval, env, policy, rules, i + 1, acc + [i]);
        assert acc + [i] + MatchingFrom(glossary, eval, env, rules, i + 1) == acc + MatchingFrom(glossary, eval, env, rules, i);
      } else if m == Some(false) {
        CollectedFrom(glossary, eval, env, policy, rules, i + 1, acc);
      }
    } else {
      assert acc + [] == acc;
    }
  }

  /** Under R and C every matching rule is collected, in ascending order;
      a rule testing a variable missing from the glossary raises. */
  lemma AllMatchesCollected(glossary: map<Cell, Entry>, eval: Evaluator, env: Env, policy: string, rules: seq<Rule>)
    requires CollectPolicy(policy)
    ensures Select(glossary, eval, env, policy, rules).SelectRaised? <==> !NoRaise(glossary, eval, env, rules, 0)
    ensures Select(glossary, eval, env, policy, rules).Selection? ==>
              var ranked := Select(glossary, eval, env, policy, rules).ranked;
              (forall j :: 0 <= j < |rules| ==> (j in ranked <==> Matches(glossary, eval, env, rules, j) == Some(true)))
              && forall a, b :: 0 <= a < b < |ranked| ==> ranked[a] < ranked[b]
  {
    CollectedFrom(glossary, eval, env, policy, rules, 0, []);
    MatchingFromIs(glossary, eval, env, rules, 0);
    assert [] + MatchingFrom(glossary, eval, env, rules, 0) == MatchingFrom(glossary, eval, env, rules, 0);
  }

  lemma {:induction false} RankedFrom(glossary: map<Cell, Entry>, eval: Evaluator, env: Env, policy: string, rules: seq<Rule>, i: nat, acc: seq<nat>)
    requires RankPolicy(policy) && i <= |rules| && |acc| <= 1
    requires NoRaise(glossary, eval, env, rules, i)
    ensures var ms := MatchingFrom(glossary, eval, env, rules, i);
            SelectFrom(glossary, eval, env, policy, rules, i, Selection(None, [], acc)) ==
              if |acc| + |ms| >= 2 then SelectRaised else Selection(None, [], acc + ms)
    decreases |rules| - i
  {
    if i < |rules| {
      var m := Matches(glossary, eval, env, rules, i);
      var rest := MatchingFrom(glossary, eval, env, rules, i + 1);
      if m == Some(true) {
        assert MatchingFrom(glossary, eval, env, rules, i) == [i] + rest;
        if acc == [] {
          RankedFrom(glossary, eval, env, policy, rules, i + 1, [i]);
          assert acc + ([i] + rest) == [i] + rest;
        }
      } else {
        assert MatchingFrom(glossary, eval, env, rules, i) == rest;
        RankedFrom(glossary, eval, env, policy, rules, i + 1, acc);
      }
    } else {
      assert acc + [] == acc;
    }
  }

  /** Under P and O a single match is recorded as the rank list; a second
      match raises. */
  lemma RankedSingleMatch(glossary: map<Cell, Entry>, eval: Evaluator, env: Env, policy: string, rules: seq<Rule>)
    requires RankPolicy(policy) && NoRaise(glossary, eval, env, rules, 0)
    ensures var ms := MatchingFrom(glossary, eval, env, rules, 0);
            Select(glossary, eval, env, policy, rules) ==
              if |ms| >= 2 then SelectRaised else Selection(None, [], ms)
  {
    RankedFrom(glossary, eval, env, policy, rules, 0, []);
    assert [] + MatchingFrom(glossary, eval, env, rules, 0) == MatchingFrom(glossary, eval, env, rules, 0);
  }

  // ---------------------------------------------------------------------
  // Results and outputs

  /** The `Result` dictionary a decision starts from: every glossary
      variable with the unquoted value of its item. */
  /** What the rule loop reports over the first `n` rules. */
  function RulesReports(glossary: map<Cell, Entry>, eval: Evaluator, env: Env, rules: seq<Rule>, n: nat): (es: seq<Error>)
    requires n <= |rules|
    ensures AllReports(es)
  {
    if n == 0 then []
    else RulesReports(glossary, eval, env, rules, n - 1) + TestReports(glossary, eval, env, rules[n - 1].tests)
  }

  /** The number of rules the rule loop evaluates: under U, A and F it
      stops at the first match. */
  function Visited(policy: string, sel: Selection, n: nat): (k: nat)
    ensures k <= n
  {
    if FirstHitPolicy(policy) && sel.Selection? && sel.found.Some? && sel.found.value < n then sel.found.value + 1 else n
  }

  /** What the rule loop reports. */
  function SelectReports(glossary: map<Cell, Entry>, eval: Evaluator, env: Env, policy: string, rules: seq<Rule>): (es: seq<Error>)
    ensures AllReports(es)
  {
    RulesReports(glossary, eval, env, rules, Visited(policy, Select(glossary, eval, env, policy, rules), |rules|))
  }

  function InitialResults(glossary: map<Cell, Entry>, env: Env): (r: Raises<Results>)
    ensures r.Ok? ==> r.value.Keys == glossary.Keys
  {
    if exists v :: v in glossary && Unquote(Read(env, glossary[v].item)).Raise? then Raise
    else Ok(map v | v in glossary :: Unquote(Read(env, glossary[v].item)).value)
  }

  /** Each glossary variable's result is its item's unquoted value. */
  ghost predicate AgreesWith(glossary: map<Cell, Entry>, env: Env, results: Results, vars: set<Cell>)
  {
    forall v :: v in vars ==>
      v in glossary && v in results && Unquote(Read(env, glossary[v].item)) == Ok(results[v])
  }

  lemma InitialResultsAgree(glossary: map<Cell, Entry>, env: Env)
    ensures InitialResults(glossary, env).Raise? <==>
              exists v :: v in glossary && Unquote(Read(env, glossary[v].item)).Raise?
    ensures InitialResults(glossary, env).Ok? ==> AgreesWith(glossary, env, InitialResults(glossary, env).value, glossary.Keys)
  {
  }
  /** What the results loop reports: it reads the item of each variable in
      `order`, the glossary's order. */
  function ResultReports(glossary: map<Cell, Entry>, eval: Evaluator, env: Env, order: seq<Cell>): (es: seq<Error>)
    ensures AllReports(es)
  {
    if |order| == 0 then []
    else
      var v := order[|order| - 1];
      ResultReports(glossary, eval, env, order[..|order| - 1])
        + if v in glossary then Reports(eval, env, glossary[v].item) else []
  }


  /** One output assignment of a single chosen rule. */
  function SetOutput(glossary: map<Cell, Entry>, eval: Evaluator, st: (Env, Results), out: (Cell, string)): Raises<(Env, Results)>
  {
    if out.0 !in glossary then Raise
    else
      var item := glossary[out.0].item;
      var env := Assign(eval, st.0, item, out.1);
      match Unquote(Read(env, item))
      case Raise => Raise
      case Ok(v) => Ok((env, st.1[out.0 := v]))
  }

  /** The output assignments of a rule, in order. */
  function SetOutputs(glossary: map<Cell, Entry>, eval: Evaluator, st: (Env, Results), outs: seq<(Cell, string)>): Raises<(Env, Results)>
  {
    if |outs| == 0 then Ok(st)
    else
      match SetOutputs(glossary, eval, st, outs[..|outs| - 1])
      case Raise => Raise
      case Ok(st1) => SetOutput(glossary, eval, st1, outs[|outs| - 1])
  }
  /** What one output reports: the assignment `item <- text`, then the
      read of `item`. */
  function OutputReports(glossary: map<Cell, Entry>, eval: Evaluator, env: Env, out: (Cell, string)): (es: seq<Error>)
    ensures AllReports(es)
  {
    if out.0 !in glossary then []
    else
      var item := glossary[out.0].item;
      Reports(eval, env, item + " <- " + out.1) + Reports(eval, Assign(eval, env, item, out.1), item)
  }

  /** What the outputs of a chosen rule report. */
  function OutputsReports(glossary: map<Cell, Entry>, eval: Evaluator, st: (Env, Results), outs: seq<(Cell, string)>): (es: seq<Error>)
    ensures AllReports(es)
  {
    if |outs| == 0 then []
    else
      match SetOutputs(glossary, eval, st, outs[..|outs| - 1])
      case Raise => []
      case Ok(st1) => OutputsReports(glossary, eval, st, outs[..|outs| - 1]) + OutputReports(glossary, eval, st1.0, outs[|outs| - 1])
  }


  /** Distinct variables stand for distinct items. */
  ghost predicate ItemsDistinct(glossary: map<Cell, Entry>)
  {
    forall v, w :: v in glossary && w in glossary && v != w ==> glossary[v].item != glossary[w].item
  }

  function OutputVariables(outs: seq<(Cell, string)>): (vs: set<Cell>)
    ensures forall k :: 0 <= k < |outs| ==> outs[k].0 in vs
    ensures forall v :: v in vs ==> exists k :: 0 <= k < |outs| && outs[k].0 == v
  {
    set k | 0 <= k < |outs| :: outs[k].0
  }

  lemma OutputVariablesSnoc(outs: seq<(Cell, string)>)
    requires |outs| > 0
    ensures OutputVariables(outs) == OutputVariables(outs[..|outs| - 1]) + {outs[|outs| - 1].0}
  {
    var init := outs[..|outs| - 1];
    forall v | v in OutputVariables(outs) ensures v in OutputVariables(init) + {outs[|outs| - 1].0} {
      var k :| 0 <= k < |outs| && outs[k].0 == v;
      if k < |init| { assert init[k] == outs[k]; }
    }
    forall v | v in OutputVariables(init) ensures v in OutputVariables(outs) {
      var k :| 0 <= k < |init| && init[k].0 == v;
      assert outs[k] == init[k];
    }
  }

  /** One output assignment keeps the earlier outputs in agreement and adds
      its own variable. */
  lemma SetOutputAgrees(glossary: map<Cell, Entry>, eval: Evaluator, st: (Env, Results), out: (Cell, string), vs: set<Cell>)
    requires ItemsDistinct(glossary)
    requires AgreesWith(glossary, st.0, st.1, vs)
    requires SetOutput(glossary, eval, st, out).Ok?
    ensures var (env, results) := SetOutput(glossary, eval, st, out).value;
            AgreesWith(glossary, env, results, vs + {out.0})
            && forall v :: v != out.0 ==> (v in results <==> v in st.1) && (v in st.1 ==> results[v] == st.1[v])
  {
    var (env, results) := SetOutput(glossary, eval, st, out).value;
    var item := glossary[out.0].item;
    forall v | v in vs && v != out.0
      ensures Read(env, glossary[v].item) == Read(st.0, glossary[v].item)
    {
      assert glossary[v].item != item;
    }
  }

  /** After a rule's outputs are set, every output variable reports the
      unquoted final value of its item, and every other result is as it was. */
  lemma {:induction false} OutputsAgree(glossary: map<Cell, Entry>, eval: Evaluator, st: (Env, Results), outs: seq<(Cell, string)>)
    requires ItemsDistinct(glossary)
    requires SetOutputs(glossary, eval, st, outs).Ok?
    ensures var (env, results) := SetOutputs(glossary, eval, st, outs).value;
            AgreesWith(glossary, env, results, OutputVariables(outs))
            && forall v :: v !in OutputVariables(outs) ==> (v in results <==> v in st.1) && (v in st.1 ==> results[v] == st.1[v])
  {
    if |outs| > 0 {
      var init := outs[..|outs| - 1];
      OutputsAgree(glossary, eval, st, init);
      OutputVariablesSnoc(outs);
      SetOutputAgrees(glossary, eval, SetOutputs(glossary, eval, st, init).value, outs[|outs| - 1], OutputVariables(init));
    }
  }

  // ---------------------------------------------------------------------
  // Aggregation under R and C

  /** One output added to the running result `cur` of a variable. */
  function Combine(policy: string, cur: Value, out: Value): Raises<Value>
    requires |policy| > 0
  {
    if |policy| == 1 then
      if cur.List? then Ok(List(cur.items + [out])) else Raise
    else if policy[1] == '+' then PyAdd(cur, out)
    else if policy[1] == '<' then
      if cur.Null? then Ok(out)
      else match PyLess(out, cur)
        case Raise => Raise
        case Ok(less) => Ok(if less then out else cur)
    else if policy[1] == '>' then
      if cur.Null? then Ok(out)
      else match PyLess(cur, out)
        case Raise => Raise
        case Ok(greater) => Ok(if greater then out else cur)
    else PyAdd(cur, Int(1))
  }

  /** The value a false result is reset to before a rule's first output:
      an empty list (R, C), zero (C+, C#); C< and C> reset no variable. */
  function ResetValue(policy: string, cur: Value): Value
    requires |policy| > 0
  {
    if Truthy(cur) then cur
    else if |policy| == 1 then List([])
    else if policy[1] in "+#" then Int(0)
    else cur
  }

  /** The reset before a rule's first output. Under C< and C> it writes null
      under the key of the ITEM, not of the variable. */
  function Reset(policy: string, variable: Cell, item: string, results: Results): Raises<Results>
    requires |policy| > 0
  {
    if variable !in results then Raise
    else if Truthy(results[variable]) then Ok(results)
    else if |policy| == 1 || policy[1] in "+#" then Ok(results[variable := ResetValue(policy, results[variable])])
    else Ok(results[Some(item) := Null])
  }

  /** The reference: outputs added one after another. */
  function Aggregated(policy: string, cur: Value, outs: seq<Value>): Raises<Value>
    requires |policy| > 0
  {
    if |outs| == 0 then Ok(cur)
    else
      match Aggregated(policy, cur, outs[..|outs| - 1])
      case Raise => Raise
      case Ok(c) => Combine(policy, c, outs[|outs| - 1])
  }

  function SumInts(outs: seq<Value>): int
    requires forall k :: 0 <= k < |outs| ==> outs[k].Int?
  {
    if |outs| == 0 then 0 else SumInts(outs[..|outs| - 1]) + outs[|outs| - 1].i
  }

  function MinInts(c: int, outs: seq<Value>): (m: int)
    requires forall k :: 0 <= k < |outs| ==> outs[k].Int?
    ensures m <= c && forall k :: 0 <= k < |outs| ==> m <= outs[k].i
    ensures m == c || exists k :: 0 <= k < |outs| && m == outs[k].i
  {
    if |outs| == 0 then c
    else
      var m := MinInts(c, outs[..|outs| - 1]);
      assert forall k :: 0 <= k < |outs| - 1 ==> outs[..|outs| - 1][k] == outs[k];
      if outs[|outs| - 1].i < m then outs[|outs| - 1].i else m
  }

  function MaxInts(c: int, outs: seq<Value>): (m: int)
    requires forall k :: 0 <= k < |outs| ==> outs[k].Int?
    ensures m >= c && forall k :: 0 <= k < |outs| ==> m >= outs[k].i
    ensures m == c || exists k :: 0 <= k < |outs| && m == outs[k].i
  {
    if |outs| == 0 then c
    else
      var m := MaxInts(c, outs[..|outs| - 1]);
      assert forall k :: 0 <= k < |outs| - 1 ==> outs[..|outs| - 1][k] == outs[k];
      if outs[|outs| - 1].i > m then outs[|outs| - 1].i else m
  }

  /** R and plain C append the outputs in order. */
  lemma {:induction false} CollectAppends(policy: string, xs: seq<Value>, outs: seq<Value>)
    requires |policy| == 1
    ensures Aggregated(policy, List(xs), outs) == Ok(List(xs + outs))
  {
    if |outs| > 0 {
      CollectAppends(policy, xs, outs[..|outs| - 1]);
      assert xs + outs[..|outs| - 1] + [outs[|outs| - 1]] == xs + outs;
    } else {
      assert xs + outs == xs;
    }
  }

  /** C+ sums integer outputs. */
  lemma {:induction false} SumAdds(policy: string, n: int, outs: seq<Value>)
    requires |policy| == 2 && policy[1] == '+'
    requires forall k :: 0 <= k < |outs| ==> outs[k].Int?
    ensures Aggregated(policy, Int(n), outs) == Ok(Int(n + SumInts(outs)))
  {
    if |outs| > 0 {
      SumAdds(policy, n, outs[..|outs| - 1]);
    }
  }

  /** C# adds one per output, whatever the output. */
  lemma {:induction false} CountCounts(policy: string, n: int, outs: seq<Value>)
    requires |policy| == 2 && policy[1] == '#'
    ensures Aggregated(policy, Int(n), outs) == Ok(Int(n + |outs|))
  {
    if |outs| > 0 {
      CountCounts(policy, n, outs[..|outs| - 1]);
    }
  }

  /** C< keeps the least integer output and C> the greatest, counting a
      start value that is not null. */
  lemma {:induction false} MinMaxKept(policy: string, c: int, outs: seq<Value>)
    requires |policy| == 2 && policy[1] in "<>"
    requires forall k :: 0 <= k < |outs| ==> outs[k].Int?
    ensures Aggregated(policy, Int(c), outs) == Ok(Int(if policy[1] == '<' then MinInts(c, outs) else MaxInts(c, outs)))
  {
    if |outs| > 0 {
      MinMaxKept(policy, c, outs[..|outs| - 1]);
    }
  }

  lemma MinMaxFromNull(policy: string, outs: seq<Value>)
    requires |policy| == 2 && policy[1] in "<>"
    requires |outs| > 0 && forall k :: 0 <= k < |outs| ==> outs[k].Int?
    ensures Aggregated(policy, Null, outs) ==
              Ok(Int(if policy[1] == '<' then MinInts(outs[0].i, outs[1..]) else MaxInts(outs[0].i, outs[1..])))
  {
    AggregatedFromFirst(policy, outs);
    MinMaxKept(policy, outs[0].i, outs[1..]);
  }

  /** From null, the first output is taken as it is. */
  lemma {:induction false} AggregatedFromFirst(policy: string, outs: seq<Value>)
    requires |policy| == 2 && policy[1] in "<>" && |outs| > 0
    ensures Aggregated(policy, Null, outs) == Aggregated(policy, outs[0], outs[1..])
  {
    if |outs| > 1 {
      AggregatedFromFirst(policy, outs[..|outs| - 1]);
      assert outs[..|outs| - 1][1..] == outs[1..][..|outs[1..]| - 1];
    } else {
      assert outs[..0] == [];
    }
  }

  /** The running state of R and C: the environment, the results, the last
      executed rule and the annotations gathered so far. */
  datatype Run = Run(env: Env, results: Results, executed: Option<Executed>, annotations: seq<(Cell, Cell)>)

  /** The decision, the table and the id of an executed rule. */
  datatype Executed = Executed(decision: Cell, table: Cell, ruleId: string)

  /** One output of a collected rule; `first` marks the rule's first output,
      before which a false result is reset. */
  function AggOutput(glossary: map<Cell, Entry>, eval: Evaluator, policy: string, st: (Env, Results), out: (Cell, string), first: bool): Raises<(Env, Results)>
    requires |policy| > 0
  {
    if out.0 !in glossary then Raise
    else
      var item := glossary[out.0].item;
      var reset := if first then Reset(policy, out.0, item, st.1) else Ok(st.1);
      match reset
      case Raise => Raise
      case Ok(res) =>
        var env := Assign(eval, st.0, item, out.1);
        match Unquote(Read(env, item))
        case Raise => Raise
        case Ok(o) =>
          if out.0 !in res then Raise
          else match Combine(policy, res[out.0], o)
            case Raise => Raise
            case Ok(nv) => Ok((env, res[out.0 := nv]))
  }

  function AggOutputs(glossary: map<Cell, Entry>, eval: Evaluator, policy: string, st: (Env, Results), outs: seq<(Cell, string)>): Raises<(Env, Results)>
    requires |policy| > 0
  {
    if |outs| == 0 then Ok(st)
    else
      match AggOutputs(glossary, eval, policy, st, outs[..|outs| - 1])
      case Raise => Raise
      case Ok(st1) => AggOutput(glossary, eval, policy, st1, outs[|outs| - 1], |outs| == 1)
  }
  /** What the outputs of a collected rule report. */
  function AggReports(glossary: map<Cell, Entry>, eval: Evaluator, policy: string, st: (Env, Results), outs: seq<(Cell, string)>): (es: seq<Error>)
    requires |policy| > 0
    ensures AllReports(es)
  {
    if |outs| == 0 then []
    else
      match AggOutputs(glossary, eval, policy, st, outs[..|outs| - 1])
      case Raise => []
      case Ok(st1) => AggReports(glossary, eval, policy, st, outs[..|outs| - 1]) + OutputReports(glossary, eval, st1.0, outs[|outs| - 1])
  }


  /** The annotations of a rule, paired with the table's annotation headings. */
  function RuleAnnotations(table: Table, rule: Rule): (r: Raises<seq<(Cell, Cell)>>)
    ensures r.Ok? && table.annotationHeadings.Some? ==>
              |r.value| == |table.annotationHeadings.value| <= |rule.annotation|
              && forall k :: 0 <= k < |r.value| ==> r.value[k] == (table.annotationHeadings.value[k], rule.annotation[k])
    ensures table.annotationHeadings.None? ==> r == Ok([])
  {
    match table.annotationHeadings
    case None => Ok([])
    case Some(hs) =>
      if |rule.annotation| < |hs| then Raise
      else Ok(seq(|hs|, k requires 0 <= k < |hs| => (hs[k], rule.annotation[k])))
  }

  /** The collected rules `ranked`, in order. */
  function RankedRuns(glossary: map<Cell, Entry>, eval: Evaluator, table: Table, decision: Cell, tableName: Cell, st: Run, ranked: seq<nat>): Raises<Run>
    requires |table.hitPolicy| > 0
    requires forall k :: 0 <= k < |ranked| ==> ranked[k] < |table.rules|
  {
    if |ranked| == 0 then Ok(st)
    else
      match RankedRuns(glossary, eval, table, decision, tableName, st, ranked[..|ranked| - 1])
      case Raise => Raise
      case Ok(st1) => RankedStep(glossary, eval, table, decision, tableName, st1, table.rules[ranked[|ranked| - 1]])
  }

  /** One collected rule: its outputs are aggregated and its annotations
      gathered; it becomes the executed rule. */
  function RankedStep(glossary: map<Cell, Entry>, eval: Evaluator, table: Table, decision: Cell, tableName: Cell, st: Run, rule: Rule): Raises<Run>
    requires |table.hitPolicy| > 0
  {
    match AggOutputs(glossary, eval, table.hitPolicy, (st.env, st.results), rule.outputs)
    case Raise => Raise
    case Ok((env, results)) =>
      match RuleAnnotations(table, rule)
      case Raise => Raise
      case Ok(anns) => Ok(Run(env, results, Some(Executed(decision, tableName, rule.ruleId)), st.annotations + anns))
  }
  /** What the collected rules `ranked` report. */
  function RankedReports(glossary: map<Cell, Entry>, eval: Evaluator, table: Table, decision: Cell, tableName: Cell, st: Run, ranked: seq<nat>): (es: seq<Error>)
    requires |table.hitPolicy| > 0
    requires forall k :: 0 <= k < |ranked| ==> ranked[k] < |table.rules|
    ensures AllReports(es)
  {
    if |ranked| == 0 then []
    else
      match RankedRuns(glossary, eval, table, decision, tableName, st, ranked[..|ranked| - 1])
      case Raise => []
      case Ok(st1) =>
        RankedReports(glossary, eval, table, decision, tableName, st, ranked[..|ranked| - 1])
          + AggReports(glossary, eval, table.hitPolicy, (st1.env, st1.results), table.rules[ranked[|ranked| - 1]].outputs)
  }


  /** The outputs produced by assigning `texts` to `item` one after another. */
  function Produced(eval: Evaluator, env: Env, item: string, texts: seq<string>): Raises<(Env, seq<Value>)>
  {
    if |texts| == 0 then Ok((env, []))
    else
      match Produced(eval, env, item, texts[..|texts| - 1])
      case Raise => Raise
      case Ok((env1, outs)) =>
        var env2 := Assign(eval, env1, item, texts[|texts| - 1]);
        match Unquote(Read(env2, item))
        case Raise => Raise
        case Ok(o) => Ok((env2, outs + [o]))
  }

  /** After a combination, a later reset leaves the running result as it is. */
  lemma CombineIsStable(policy: string, cur: Value, out: Value)
    requires |policy| > 0 && (|policy| == 1 || policy[1] in "+<>#")
    requires Combine(policy, ResetValue(policy, cur), out).Ok?
    ensures var c := Combine(policy, ResetValue(policy, cur), out).value;
            ResetValue(policy, c) == c
  {
  }

  predicate Single(rule: Rule, v: Cell)
  {
    |rule.outputs| == 1 && rule.outputs[0].0 == v
  }

  /** The texts assigned by single-output rules. */
  function OutputTexts(table: Table, ranked: seq<nat>, v: Cell): (ts: seq<string>)
    requires forall k :: 0 <= k < |ranked| ==> ranked[k] < |table.rules| && Single(table.rules[ranked[k]], v)
    ensures |ts| == |ranked|
  {
    seq(|ranked|, k requires 0 <= k < |ranked| && ranked[k] < |table.rules| && Single(table.rules[ranked[k]], v) =>
      table.rules[ranked[k]].outputs[0].1)
  }

  /** When every collected rule has the one output `v`, the R and C loop
      leaves in `v` the reference aggregation of the outputs it produced,
      starting from `v`'s reset value. */
  lemma {:induction false} RankedAggregates(glossary: map<Cell, Entry>, eval: Evaluator, table: Table, decision: Cell, tableName: Cell, st: Run, ranked: seq<nat>, v: Cell)
    requires |table.hitPolicy| > 0 && (|table.hitPolicy| == 1 || table.hitPolicy[1] in "+<>#")
    requires |ranked| > 0
    requires forall k :: 0 <= k < |ranked| ==> ranked[k] < |table.rules| && Single(table.rules[ranked[k]], v)
    requires v in glossary && v in st.results && Some(glossary[v].item) != v
    requires RankedRuns(glossary, eval, table, decision, tableName, st, ranked).Ok?
    ensures var texts := OutputTexts(table, ranked, v);
            var run := RankedRuns(glossary, eval, table, decision, tableName, st, ranked).value;
            Produced(eval, st.env, glossary[v].item, texts).Ok?
            && v in run.results
            && run.env == Produced(eval, st.env, glossary[v].item, texts).value.0
            && Aggregated(table.hitPolicy, ResetValue(table.hitPolicy, st.results[v]),
                          Produced(eval, st.env, glossary[v].item, texts).value.1) == Ok(run.results[v])
            && ResetValue(table.hitPolicy, run.results[v]) == run.results[v]
  {
    var policy := table.hitPolicy;
    var item := glossary[v].item;
    var texts := OutputTexts(table, ranked, v);
    var n := |ranked|;
    var init := ranked[..n - 1];
    var rule := table.rules[ranked[n - 1]];
    if n > 1 {
      RankedAggregates(glossary, eval, table, decision, tableName, st, init, v);
    } else {
      assert init == [];
    }
    assert RankedRuns(glossary, eval, table, decision, tableName, st, init).Ok?;
    var run1 := RankedRuns(glossary, eval, table, decision, tableName, st, init).value;
    SingleOutputStep(glossary, eval, table, decision, tableName, run1, rule, v);
    var env2 := Assign(eval, run1.env, item, rule.outputs[0].1);
    var o := Unquote(Read(env2, item)).value;
    OutputTextsInit(table, ranked, v);
    var texts1 := OutputTexts(table, init, v);
    var outs1 := Produced(eval, st.env, item, texts1).value.1;
    assert Produced(eval, st.env, item, texts1).value.0 == run1.env;
    assert Produced(eval, st.env, item, texts) == Ok((env2, outs1 + [o]));
    assert Aggregated(policy, ResetValue(policy, st.results[v]), outs1 + [o])
        == Combine(policy, Aggregated(policy, ResetValue(policy, st.results[v]), outs1).value, o) by {
      assert (outs1 + [o])[..|outs1 + [o]| - 1] == outs1;
    }
    CombineIsStable(policy, run1.results[v], o);
  }

  lemma OutputTextsInit(table: Table, ranked: seq<nat>, v: Cell)
    requires |ranked| > 0
    requires forall k :: 0 <= k < |ranked| ==> ranked[k] < |table.rules| && Single(table.rules[ranked[k]], v)
    ensures OutputTexts(table, ranked[..|ranked| - 1], v) == OutputTexts(table, ranked, v)[..|ranked| - 1]
    ensures OutputTexts(table, ranked, v)[|ranked| - 1] == table.rules[ranked[|ranked| - 1]].outputs[0].1
  {
  }

  /** One collected rule whose only output is `v`: its output is assigned
      and combined into the reset result of `v`. */
  lemma SingleOutputStep(glossary: map<Cell, Entry>, eval: Evaluator, table: Table, decision: Cell, tableName: Cell, run1: Run, rule: Rule, v: Cell)
    requires |table.hitPolicy| > 0 && (|table.hitPolicy| == 1 || table.hitPolicy[1] in "+<>#")
    requires Single(rule, v) && v in glossary && v in run1.results && Some(glossary[v].item) != v
    requires RankedStep(glossary, eval, table, decision, tableName, run1, rule).Ok?
    ensures var item := glossary[v].item;
            var env2 := Assign(eval, run1.env, item, rule.outputs[0].1);
            var next := RankedStep(glossary, eval, table, decision, tableName, run1, rule).value;
            Unquote(Read(env2, item)).Ok?
            && next.env == env2 && v in next.results
            && Combine(table.hitPolicy, ResetValue(table.hitPolicy, run1.results[v]), Unquote(Read(env2, item)).value)
               == Ok(next.results[v])
  {
    var policy := table.hitPolicy;
    var st := (run1.env, run1.results);
    assert rule.outputs[..0] == [];
    assert AggOutputs(glossary, eval, policy, st, rule.outputs[..0]) == Ok(st);
    assert AggOutputs(glossary, eval, policy, st, rule.outputs)
        == AggOutput(glossary, eval, policy, st, rule.outputs[0], true);
  }

  /** `v` is the output of a rule at position `p` and at no other. */
  predicate OnlyOutputAt(outs: seq<(Cell, string)>, v: Cell, p: nat)
  {
    p < |outs| && outs[p].0 == v && forall j :: 0 <= j < |outs| && j != p ==> outs[j].0 != v
  }

  /** `v` is a glossary variable whose item no other variable shares, and no
      item is spelled as `v`: the outputs of other variables leave `v`'s
      result and `v`'s item alone. */
  predicate ItemsApart(glossary: map<Cell, Entry>, v: Cell)
  {
    v in glossary
    && (forall x :: x in glossary ==> Some(glossary[x].item) != v)
    && (forall x :: x in glossary && x != v ==> glossary[x].item != glossary[v].item)
  }

  /** The outputs `lo` to `k` of a rule, none of them `v`, keep `v`'s result
      and the value of `v`'s item. */
  lemma {:induction false} OthersKeepOutput(glossary: map<Cell, Entry>, eval: Evaluator, policy: string, st: (Env, Results),
                                            outs: seq<(Cell, string)>, v: Cell, lo: nat, k: nat)
    requires |policy| > 0 && lo <= k <= |outs| && ItemsApart(glossary, v)
    requires forall j :: lo <= j < k ==> outs[j].0 != v
    requires AggOutputs(glossary, eval, policy, st, outs[..k]).Ok?
    ensures AggOutputs(glossary, eval, policy, st, outs[..lo]).Ok?
    ensures var a := AggOutputs(glossary, eval, policy, st, outs[..lo]).value;
            var b := AggOutputs(glossary, eval, policy, st, outs[..k]).value;
            (v in a.1 ==> v in b.1 && b.1[v] == a.1[v])
            && Read(b.0, glossary[v].item) == Read(a.0, glossary[v].item)
  {
    if k > lo {
      assert outs[..k][..k - 1] == outs[..k - 1];
      OthersKeepOutput(glossary, eval, policy, st, outs, v, lo, k - 1);
      var w := outs[k - 1].0;
      assert w != v && w in glossary;
      assert Some(glossary[w].item) != v && glossary[w].item != glossary[v].item;
    }
  }

  /** One collected rule in which `v` is the output at position `p`: the
      value assigned there is combined into `v`'s running result, which is
      reset first only when `p` is the rule's first output; the outputs
      after it leave both alone. */
  lemma OutputCombined(glossary: map<Cell, Entry>, eval: Evaluator, policy: string, st: (Env, Results),
                       outs: seq<(Cell, string)>, v: Cell, p: nat)
    requires |policy| > 0 && OnlyOutputAt(outs, v, p) && ItemsApart(glossary, v) && v in st.1
    requires AggOutputs(glossary, eval, policy, st, outs).Ok?
    ensures AggOutputs(glossary, eval, policy, st, outs[..p]).Ok?
    ensures var item := glossary[v].item;
            var before := AggOutputs(glossary, eval, policy, st, outs[..p]).value;
            var env2 := Assign(eval, before.0, item, outs[p].1);
            var fin := AggOutputs(glossary, eval, policy, st, outs).value;
            Unquote(Read(env2, item)).Ok? && v in fin.1 && Read(fin.0, item) == Read(env2, item)
            && Combine(policy, if p == 0 then ResetValue(policy, st.1[v]) else st.1[v], Unquote(Read(env2, item)).value)
               == Ok(fin.1[v])
  {
    assert outs[..|outs|] == outs;
    OthersKeepOutput(glossary, eval, policy, st, outs, v, p + 1, |outs|);
    assert outs[..p + 1][..p] == outs[..p];
    assert outs[..0] == [];
    OthersKeepOutput(glossary, eval, policy, st, outs, v, 0, p);
  }

  /** Under R, C, C+ and C# a variable that is a later output of a collected
      rule is not reset: from null its combination raises. */
  lemma LaterOutputFromNullRaises(glossary: map<Cell, Entry>, eval: Evaluator, policy: string, st: (Env, Results),
                                  outs: seq<(Cell, string)>, v: Cell, p: nat)
    requires |policy| > 0 && (|policy| == 1 || policy[1] in "+#")
    requires OnlyOutputAt(outs, v, p) && p > 0 && ItemsApart(glossary, v) && v in st.1 && st.1[v] == Null
    ensures AggOutputs(glossary, eval, policy, st, outs).Raise?
  {
    if AggOutputs(glossary, eval, policy, st, outs).Ok? {
      OutputCombined(glossary, eval, policy, st, outs, v, p);
    }
  }

  /** The reset at a first output, by contrast, lets the same rule through. */
  lemma FirstOutputFromNull(policy: string, out: Value)
    requires |policy| > 0 && (|policy| == 1 || policy[1] in "+#") && AsNumber(out).Some?
    ensures Combine(policy, ResetValue(policy, Null), out).Ok?
    ensures Combine(policy, Null, out).Raise?
  {
  }

  // ---------------------------------------------------------------------
  // A decision

  /** The dictionary reported for one decision table: `Result`, the
      executed rule if any, and the decision's and the rule's annotations
      (an empty list: the key is absent). */
  datatype NewData = NewData(result: Results, executed: Option<Executed>,
                             decisionAnnotations: seq<(Cell, Cell)>, ruleAnnotations: seq<(Cell, Cell)>)

  datatype TableOutcome =
    | Skipped                     // an input test of the decision is false
    | NoMatch(table: Cell)        // no rule matched
    | Done(data: NewData, env: Env)
    | TableRaised

  /** The decision's input tests all pass. */
  function InputsPass(glossary: map<Cell, Entry>, eval: Evaluator, env: Env, d: Decision): Option<bool>
  {
    RuleMatches(glossary, eval, env, d.inputTests)
  }

  /** One chosen rule (U, A, F, P): its outputs are set in order. */
  function RunSingle(glossary: map<Cell, Entry>, eval: Evaluator, env: Env, results: Results, table: Table,
                     decision: Cell, d: Decision, i: nat): TableOutcome
    requires i < |table.rules|
  {
    var rule := table.rules[i];
    match SetOutputs(glossary, eval, (env, results), rule.outputs)
    case Raise => TableRaised
    case Ok((env1, results1)) =>
      match RuleAnnotations(table, rule)
      case Raise => TableRaised
      case Ok(anns) => Done(NewData(results1, Some(Executed(decision, d.table, rule.ruleId)), d.annotations, anns), env1)
  }

  function SelectionInRange(sel: Selection, n: nat): bool
  {
    sel.Selection?
    && (sel.found.Some? ==> sel.found.value < n)
    && (forall k :: 0 <= k < |sel.ranked| ==> sel.ranked[k] < n)
    && (forall k :: 0 <= k < |sel.ranks| ==> sel.ranks[k] < n)
  }

  lemma {:induction false} SelectFromInRange(glossary: map<Cell, Entry>, eval: Evaluator, env: Env, policy: string, rules: seq<Rule>, i: nat, acc: Selection)
    requires acc.SelectRaised? || SelectionInRange(acc, |rules|)
    ensures var r := SelectFrom(glossary, eval, env, policy, rules, i, acc);
            r.SelectRaised? || SelectionInRange(r, |rules|)
    decreases |rules| - i
  {
    if i < |rules| && acc.Selection? {
      SelectFromInRange(glossary, eval, env, policy, rules, i + 1, acc);
      if acc.ranks == [] {
        SelectFromInRange(glossary, eval, env, policy, rules, i + 1, acc.(ranks := [i]));
      }
      SelectFromInRange(glossary, eval, env, policy, rules, i + 1, acc.(ranked := acc.ranked + [i]));
    }
  }

  /** A scheduled decision whose tables are `tables` and whose names are
      `names` (table to decision). */
  function RunDecision(glossary: map<Cell, Entry>, eval: Evaluator, tables: map<Cell, Table>, names: map<Cell, Cell>,
                       env: Env, d: Decision): TableOutcome
  {
    match InputsPass(glossary, eval, env, d)
    case None => TableRaised
    case Some(false) => Skipped
    case Some(true) =>
      if d.table !in tables || d.table !in names || |tables[d.table].hitPolicy| == 0 then TableRaised
      else
        var table := tables[d.table];
        var policy := table.hitPolicy;
        var sel := Select(glossary, eval, env, policy, table.rules);
        SelectFromInRange(glossary, eval, env, policy, table.rules, 0, NoSelection);
        if sel.SelectRaised? then TableRaised
        else match InitialResults(glossary, env)
          case Raise => TableRaised
          case Ok(results) => RunPolicy(glossary, eval, env, results, table, names[d.table], d, sel)
  }

  /** The branch of the table's hit policy, once the rules are selected and
      the results started; only the input tests skip a decision. */
  function RunPolicy(glossary: map<Cell, Entry>, eval: Evaluator, env: Env, results: Results, table: Table,
                     decision: Cell, d: Decision, sel: Selection): (o: TableOutcome)
    requires |table.hitPolicy| > 0 && SelectionInRange(sel, |table.rules|)
    ensures !o.Skipped?
  {
    var policy := table.hitPolicy;
    if FirstHitPolicy(policy) then
      if sel.found.None? then NoMatch(d.table)
      else RunSingle(glossary, eval, env, results, table, decision, d, sel.found.value)
    else if CollectPolicy(policy) then
      if sel.ranked == [] then NoMatch(d.table)
      else
        match RankedRuns(glossary, eval, table, decision, d.table, Run(env, results, None, []), sel.ranked[1..])
        case Raise => TableRaised
        case Ok(run) =>
          var decisionAnns := if run.executed.Some? then d.annotations else [];
          Done(NewData(run.results, run.executed, decisionAnns, run.annotations), run.env)
    else if policy[0] == 'P' then
      if sel.ranks == [] then NoMatch(d.table)
      else RunSingle(glossary, eval, env, results, table, decision, d, sel.ranks[0])
    else if policy[0] == 'O' then
      if sel.ranks == [] then NoMatch(d.table) else TableRaised
    else Done(NewData(results, None, [], []), env)
  }
  /** What the branch of the hit policy reports. */
  function PolicyReports(glossary: map<Cell, Entry>, eval: Evaluator, env: Env, results: Results, table: Table,
                         decision: Cell, d: Decision, sel: Selection): (es: seq<Error>)
    requires |table.hitPolicy| > 0 && SelectionInRange(sel, |table.rules|)
    ensures AllReports(es)
  {
    var policy := table.hitPolicy;
    if FirstHitPolicy(policy) then
      if sel.found.None? then [] else OutputsReports(glossary, eval, (env, results), table.rules[sel.found.value].outputs)
    else if CollectPolicy(policy) then
      if sel.ranked == [] then []
      else RankedReports(glossary, eval, table, decision, d.table, Run(env, results, None, []), sel.ranked[1..])
    else if policy[0] == 'P' && sel.ranks != [] then
      OutputsReports(glossary, eval, (env, results), table.rules[sel.ranks[0]].outputs)
    else []
  }

  /** What a scheduled decision reports: its input tests; then, when they
      pass, the rule loop, the results loop and the hit policy's branch. */
  function DecisionReports(glossary: map<Cell, Entry>, order: seq<Cell>, eval: Evaluator, tables: map<Cell, Table>,
                           names: map<Cell, Cell>, env: Env, d: Decision): (es: seq<Error>)
    ensures AllReports(es)
  {
    var tests := TestReports(glossary, eval, env, d.inputTests);
    if InputsPass(glossary, eval, env, d) != Some(true) || d.table !in tables || d.table !in names
       || |tables[d.table].hitPolicy| == 0 then tests
    else
      var table := tables[d.table];
      var sel := Select(glossary, eval, env, table.hitPolicy, table.rules);
      SelectFromInRange(glossary, eval, env, table.hitPolicy, table.rules, 0, NoSelection);
      if sel.SelectRaised? then tests
      else
        var before := tests + SelectReports(glossary, eval, env, table.hitPolicy, table.rules) + ResultReports(glossary, eval, env, order);
        match InitialResults(glossary, env)
        case Raise => before
        case Ok(results) => before + PolicyReports(glossary, eval, env, results, table, names[d.table], d, sel)
  }


  /** The decisions loop: the environment carries over from one decision
      to the next. */
  datatype Progress = Progress(env: Env, all: seq<NewData>) | Unmatched(table: Cell, env: Env) | Aborted

  function RunDecisions(glossary: map<Cell, Entry>, eval: Evaluator, tables: map<Cell, Table>, names: map<Cell, Cell>,
                        env: Env, ds: seq<Decision>): Progress
  {
    if |ds| == 0 then Progress(env, [])
    else
      match RunDecisions(glossary, eval, tables, names, env, ds[..|ds| - 1])
      case Progress(env1, all) => DecisionStep(glossary, eval, tables, names, env1, all, ds[|ds| - 1])
      case other => other
  }

  /** One decision of the loop, after the data gathered so far. */
  function DecisionStep(glossary: map<Cell, Entry>, eval: Evaluator, tables: map<Cell, Table>, names: map<Cell, Cell>,
                        env: Env, all: seq<NewData>, d: Decision): Progress
  {
    match RunDecision(glossary, eval, tables, names, env, d)
    case Skipped => Progress(env, all)
    case NoMatch(t) => Unmatched(t, env)
    case Done(data, env1) => Progress(env1, all + [data])
    case TableRaised => Aborted
  }
  /** A decision whose input tests pass and whose table starts reports,
      after its tests, the rule loop, the results loop and the hit policy's
      branch. */
  lemma DecisionReportsAfterTests(glossary: map<Cell, Entry>, order: seq<Cell>, eval: Evaluator, tables: map<Cell, Table>,
                                  names: map<Cell, Cell>, env: Env, d: Decision)
    requires InputsPass(glossary, eval, env, d) == Some(true)
    requires d.table in tables && d.table in names && |tables[d.table].hitPolicy| > 0
    requires Select(glossary, eval, env, tables[d.table].hitPolicy, tables[d.table].rules).Selection?
    requires InitialResults(glossary, env).Ok?
    ensures var table := tables[d.table];
            var sel := Select(glossary, eval, env, table.hitPolicy, table.rules);
            SelectionInRange(sel, |table.rules|)
            && DecisionReports(glossary, order, eval, tables, names, env, d)
               == TestReports(glossary, eval, env, d.inputTests)
                  + SelectReports(glossary, eval, env, table.hitPolicy, table.rules)
                  + ResultReports(glossary, eval, env, order)
                  + PolicyReports(glossary, eval, env, InitialResults(glossary, env).value, table, names[d.table], d, sel)
  {
    var table := tables[d.table];
    SelectFromInRange(glossary, eval, env, table.hitPolicy, table.rules, 0, NoSelection);
  }

  /** Reports joined in four parts regroup freely. */
  lemma Regrouped(a: seq<Error>, b: seq<Error>, c: seq<Error>, e: seq<Error>)
    ensures a + b + c + e == a + (b + c + e)
  {
  }

  /** What the decisions loop reports: the decisions it runs, in order. */
  function DecisionsReports(glossary: map<Cell, Entry>, order: seq<Cell>, eval: Evaluator, tables: map<Cell, Table>,
                            names: map<Cell, Cell>, env: Env, ds: seq<Decision>): (es: seq<Error>)
    ensures AllReports(es)
  {
    if |ds| == 0 then []
    else
      var before := DecisionsReports(glossary, order, eval, tables, names, env, ds[..|ds| - 1]);
      match RunDecisions(glossary, eval, tables, names, env, ds[..|ds| - 1])
      case Progress(env1, _) => before + DecisionReports(glossary, order, eval, tables, names, env1, ds[|ds| - 1])
      case _ => before
  }


  /** The data loop: each datum goes into its variable's item. */
  datatype DataLoad = Loading(env: Env, errors: seq<Error>, valid: bool) | UnknownVariable(errors: seq<Error>, env: Env) | DataRaised

  function LoadData(glossary: map<Cell, Entry>, eval: Evaluator, env: Env, data: seq<(string, Value)>): DataLoad
  {
    if |data| == 0 then Loading(env, [], true)
    else
      match LoadData(glossary, eval, env, data[..|data| - 1])
      case Loading(env1, errors, valid) => LoadDatum(glossary, eval, env1, errors, valid, data[|data| - 1])
      case other => other
  }

  /** One datum: its value, written as S-FEEL, is assigned to the item of
      the variable it names. */
  function LoadDatum(glossary: map<Cell, Entry>, eval: Evaluator, env: Env, errors: seq<Error>, valid: bool,
                     datum: (string, Value)): DataLoad
  {
    var (name, value) := datum;
    if Some(name) !in glossary then UnknownVariable(errors + [VariableNotInGlossary(name)], env)
    else
      match ValueToSfeel(glossary, value)
      case Text(t) =>
        var item := glossary[Some(name)].item;
        Loading(Assign(eval, env, item, t), errors + Reports(eval, env, item + " <- " + t), valid)
      case NoValue => Loading(env, errors + [InvalidData], false)
      case Raised => DataRaised
  }

  /** What `decide` returns: the errors and no data, one decision's data, or
      the list of every executed decision's data. */
  datatype Answer = NoAnswer | One(data: NewData) | Many(all: seq<NewData>)

  datatype Decided = Decided(errors: seq<Error>, answer: Answer, env: Env) | DecideRaised

  /** `initGlossary`: the statement `item <- null` for each item, in the
      glossary's order; the items become null and the parser's reports are
      gathered. */
  function ClearItems(eval: Evaluator, env: Env, itemOrder: seq<string>): (r: (Env, seq<Error>))
    ensures forall item :: item in itemOrder ==> Read(r.0, item) == Null
    ensures forall item :: item !in itemOrder ==> Read(r.0, item) == Read(env, item)
    ensures AllReports(r.1)
  {
    if |itemOrder| == 0 then (env, [])
    else
      var (env1, es) := ClearItems(eval, env, itemOrder[..|itemOrder| - 1]);
      var item := itemOrder[|itemOrder| - 1];
      assert itemOrder == itemOrder[..|itemOrder| - 1] + [item];
      (env1[item := Null], es + Reports(eval, env1, item + " <- null"))
  }

  /** A decision over `data` with the loaded rules; `order` and `itemOrder`
      are the glossary's variables and items in dictionary order. */
  function Decide(glossary: map<Cell, Entry>, order: seq<Cell>, itemOrder: seq<string>, eval: Evaluator,
                  tables: map<Cell, Table>, names: map<Cell, Cell>, decisions: seq<Decision>, loaded: bool, env: Env,
                  data: seq<(string, Value)>): Decided
  {
    if !loaded then Decided([NotLoaded], NoAnswer, env)
    else
      var (env0, cleared) := ClearItems(eval, env, itemOrder);
      match LoadData(glossary, eval, env0, data)
      case DataRaised => DecideRaised
      case UnknownVariable(errors, env1) => Decided(cleared + errors, NoAnswer, env1)
      case Loading(env1, errors, valid) =>
        if !valid then Decided(cleared + errors, NoAnswer, env1)
        else Outcome(cleared + errors + DecisionsReports(glossary, order, eval, tables, names, env1, decisions),
                     RunDecisions(glossary, eval, tables, names, env1, decisions))
  }

  /** What the decisions loop reports. */
  function Outcome(errors: seq<Error>, p: Progress): Decided
  {
    match p
    case Aborted => DecideRaised
    case Unmatched(t, env) => Decided(errors + [NoRulesMatched(t)], NoAnswer, env)
    case Progress(env, all) => Decided(errors, if |all| == 1 then One(all[0]) else Many(all), env)
  }

  // ---------------------------------------------------------------------
  // Properties of a decision

  /** The number of data values of a type S-FEEL cannot represent. */
  function UnsupportedCount(data: seq<(string, Value)>): nat
  {
    if |data| == 0 then 0
    else UnsupportedCount(data[..|data| - 1]) + if data[|data| - 1].1 == Unsupported then 1 else 0
  }

  /** The number of `InvalidData` entries. */
  function CountInvalid(es: seq<Error>): nat
  {
    if |es| == 0 then 0
    else CountInvalid(es[..|es| - 1]) + if es[|es| - 1] == InvalidData then 1 else 0
  }

  lemma {:induction false} CountInvalidReports(es: seq<Error>, more: seq<Error>)
    requires AllReports(more)
    ensures CountInvalid(es + more) == CountInvalid(es)
    decreases |more|
  {
    if |more| > 0 {
      CountInvalidReports(es, more[..|more| - 1]);
      assert (es + more)[..|es + more| - 1] == es + more[..|more| - 1];
    } else {
      assert es + more == es;
    }
  }

  /** The data is rejected, with one `InvalidData` per unsupported value,
      exactly when some datum cannot be written as S-FEEL; every other error
      of the data loop is a parser report. */
  lemma {:induction false} DataLoopErrors(glossary: map<Cell, Entry>, eval: Evaluator, env: Env, data: seq<(string, Value)>)
    requires LoadData(glossary, eval, env, data).Loading?
    ensures var l := LoadData(glossary, eval, env, data);
            (forall k :: 0 <= k < |l.errors| ==> l.errors[k] == InvalidData || l.errors[k].ParserError?)
            && CountInvalid(l.errors) == UnsupportedCount(data)
            && (l.valid <==> UnsupportedCount(data) == 0)
            && (l.valid ==> AllReports(l.errors))
  {
    if |data| > 0 {
      var init := data[..|data| - 1];
      DataLoopErrors(glossary, eval, env, init);
      var l := LoadData(glossary, eval, env, init);
      var (name, value) := data[|data| - 1];
      EncodingSucceeds(glossary, value);
      match ValueToSfeel(glossary, value)
      case Text(t) =>
        var item := glossary[Some(name)].item;
        CountInvalidReports(l.errors, Reports(eval, l.env, item + " <- " + t));
      case NoValue =>
        assert (l.errors + [InvalidData])[..|l.errors|] == l.errors;
      case Raised =>
    }
  }

  /** A decision whose first executed table matches no rule ends its errors
      with that error, after the parser's reports, and gives no data. */
  lemma NoMatchReported(glossary: map<Cell, Entry>, order: seq<Cell>, itemOrder: seq<string>, eval: Evaluator,
                        tables: map<Cell, Table>, names: map<Cell, Cell>, decisions: seq<Decision>, env: Env,
                        data: seq<(string, Value)>, t: Cell)
    requires var l := LoadData(glossary, eval, ClearItems(eval, env, itemOrder).0, data); l.Loading? && l.valid
    requires RunDecisions(glossary, eval, tables, names, LoadData(glossary, eval, ClearItems(eval, env, itemOrder).0, data).env, decisions).Unmatched?
    requires RunDecisions(glossary, eval, tables, names, LoadData(glossary, eval, ClearItems(eval, env, itemOrder).0, data).env, decisions).table == t
    ensures var d := Decide(glossary, order, itemOrder, eval, tables, names, decisions, true, env, data);
            var (env0, cleared) := ClearItems(eval, env, itemOrder);
            var l := LoadData(glossary, eval, env0, data);
            && d.Decided? && d.answer == NoAnswer
            && d.errors == cleared + l.errors + DecisionsReports(glossary, order, eval, tables, names, l.env, decisions) + [NoRulesMatched(t)]
            && AllReports(d.errors[..|d.errors| - 1])
  {
    var (env0, cleared) := ClearItems(eval, env, itemOrder);
    DataLoopErrors(glossary, eval, env0, data);
    var l := LoadData(glossary, eval, env0, data);
    var es := cleared + l.errors + DecisionsReports(glossary, order, eval, tables, names, l.env, decisions);
    assert (es + [NoRulesMatched(t)])[..|es|] == es;
  }

  /** A skipped decision adds nothing and leaves the environment alone; an
      unmatched or crashed decision ends the loop. */
  lemma {:induction false} UnmatchedIsFinal(glossary: map<Cell, Entry>, eval: Evaluator, tables: map<Cell, Table>, names: map<Cell, Cell>,
                                           env: Env, ds: seq<Decision>, more: seq<Decision>)
    requires !RunDecisions(glossary, eval, tables, names, env, ds).Progress?
    ensures RunDecisions(glossary, eval, tables, names, env, ds + more) == RunDecisions(glossary, eval, tables, names, env, ds)
    ensures forall order :: DecisionsReports(glossary, order, eval, tables, names, env, ds + more)
                            == DecisionsReports(glossary, order, eval, tables, names, env, ds)
    decreases |more|
  {
    if |more| > 0 {
      UnmatchedIsFinal(glossary, eval, tables, names, env, ds, more[..|more| - 1]);
      assert (ds + more)[..|ds + more| - 1] == ds + more[..|more| - 1];
    } else {
      assert ds + more == ds;
    }
  }

  /** Each executed decision contributes one dictionary, in order. */
  lemma {:induction false} OneDataPerExecutedDecision(glossary: map<Cell, Entry>, eval: Evaluator, tables: map<Cell, Table>, names: map<Cell, Cell>,
                                                     env: Env, ds: seq<Decision>)
    requires RunDecisions(glossary, eval, tables, names, env, ds).Progress?
    ensures |RunDecisions(glossary, eval, tables, names, env, ds).all| <= |ds|
  {
    if |ds| > 0 {
      OneDataPerExecutedDecision(glossary, eval, tables, names, env, ds[..|ds| - 1]);
    }
  }

  /** Under U, A and F the executed rule is the first matching rule and its
      outputs are reported unquoted. */
  lemma FirstHitDecision(glossary: map<Cell, Entry>, eval: Evaluator, tables: map<Cell, Table>, names: map<Cell, Cell>,
                         env: Env, d: Decision)
    requires ItemsDistinct(glossary)
    requires d.table in tables && FirstHitPolicy(tables[d.table].hitPolicy)
    requires RunDecision(glossary, eval, tables, names, env, d).Done?
    ensures var out := RunDecision(glossary, eval, tables, names, env, d);
            var rules := tables[d.table].rules;
            var sel := Select(glossary, eval, env, tables[d.table].hitPolicy, rules);
            sel.Selection? && sel.found.Some? && sel.found.value < |rules|
            && out.data.executed == Some(Executed(names[d.table], d.table, rules[sel.found.value].ruleId))
            && Matches(glossary, eval, env, rules, sel.found.value) == Some(true)
            && (forall j :: 0 <= j < sel.found.value ==> Matches(glossary, eval, env, rules, j) == Some(false))
            && AgreesWith(glossary, out.env, out.data.result, OutputVariables(rules[sel.found.value].outputs))
  {
    var table := tables[d.table];
    var sel := Select(glossary, eval, env, table.hitPolicy, table.rules);
    SelectFromInRange(glossary, eval, env, table.hitPolicy, table.rules, 0, NoSelection);
    FirstMatchChosen(glossary, eval, env, table.hitPolicy, table.rules, sel.found.value);
    var results := InitialResults(glossary, env).value;
    OutputsAgree(glossary, eval, (env, results), table.rules[sel.found.value].outputs);
  }

  /** `decide` before a successful `load` reports that no rules book is
      loaded, and changes nothing. */
  lemma DecideBeforeLoad(glossary: map<Cell, Entry>, order: seq<Cell>, itemOrder: seq<string>, eval: Evaluator,
                         tables: map<Cell, Table>, names: map<Cell, Cell>, decisions: seq<Decision>, env: Env,
                         data: seq<(string, Value)>)
    ensures Decide(glossary, order, itemOrder, eval, tables, names, decisions, false, env, data) == Decided([NotLoaded], NoAnswer, env)
  {
  }

  /** A decision that answers reports nothing but the parser's messages:
      it only runs its tables when every datum names a glossary variable and
      can be written as S-FEEL. One executed table gives that table's data,
      any other number the list of them. */
  lemma AnsweredWithReportsOnly(glossary: map<Cell, Entry>, order: seq<Cell>, itemOrder: seq<string>, eval: Evaluator,
                                tables: map<Cell, Table>, names: map<Cell, Cell>, decisions: seq<Decision>, env: Env,
                                data: seq<(string, Value)>)
    requires Decide(glossary, order, itemOrder, eval, tables, names, decisions, true, env, data).Decided?
    requires Decide(glossary, order, itemOrder, eval, tables, names, decisions, true, env, data).answer != NoAnswer
    ensures var d := Decide(glossary, order, itemOrder, eval, tables, names, decisions, true, env, data);
            var (env0, cleared) := ClearItems(eval, env, itemOrder);
            var l := LoadData(glossary, eval, env0, data);
            && l.Loading? && l.valid && UnsupportedCount(data) == 0
            && d.errors == cleared + l.errors + DecisionsReports(glossary, order, eval, tables, names, l.env, decisions)
            && AllReports(d.errors)
            && RunDecisions(glossary, eval, tables, names, l.env, decisions).Progress?
            && var all := RunDecisions(glossary, eval, tables, names, l.env, decisions).all;
               d.answer == (if |all| == 1 then One(all[0]) else Many(all))
  {
    var (env0, cleared) := ClearItems(eval, env, itemOrder);
    DataLoopErrors(glossary, eval, env0, data);
  }

  /** Under P and O the rule loop either raises or records the one
      matching rule, if any. */
  lemma {:induction false} RankedOrRaised(glossary: map<Cell, Entry>, eval: Evaluator, env: Env, policy: string, rules: seq<Rule>,
                                         i: nat, acc: seq<nat>)
    requires RankPolicy(policy) && i <= |rules| && |acc| <= 1
    ensures var ms := MatchingFrom(glossary, eval, env, rules, i);
            var r := SelectFrom(glossary, eval, env, policy, rules, i, Selection(None, [], acc));
            r.SelectRaised? || (r == Selection(None, [], acc + ms) && |acc + ms| <= 1)
    decreases |rules| - i
  {
    if i < |rules| {
      var m := Matches(glossary, eval, env, rules, i);
      if m == Some(true) {
        if acc == [] {
          RankedOrRaised(glossary, eval, env, policy, rules, i + 1, [i]);
        }
      } else if m == Some(false) {
        RankedOrRaised(glossary, eval, env, policy, rules, i + 1, acc);
      }
    } else {
      assert acc + [] == acc;
    }
  }

  /** Under P a table whose only matching rule is `i` executes rule `i`. */
  lemma PriorityDecision(glossary: map<Cell, Entry>, eval: Evaluator, tables: map<Cell, Table>, names: map<Cell, Cell>,
                         env: Env, d: Decision, i: nat)
    requires d.table in tables && d.table in names && tables[d.table].hitPolicy == "P"
    requires InputsPass(glossary, eval, env, d) == Some(true)
    requires NoRaise(glossary, eval, env, tables[d.table].rules, 0)
    requires MatchingFrom(glossary, eval, env, tables[d.table].rules, 0) == [i]
    requires InitialResults(glossary, env).Ok?
    ensures i < |tables[d.table].rules|
    ensures RunDecision(glossary, eval, tables, names, env, d)
              == RunSingle(glossary, eval, env, InitialResults(glossary, env).value, tables[d.table], names[d.table], d, i)
  {
    var table := tables[d.table];
    RankedSingleMatch(glossary, eval, env, "P", table.rules);
    var sel := Select(glossary, eval, env, "P", table.rules);
    assert sel == Selection(None, [], [i]);
    SelectFromInRange(glossary, eval, env, "P", table.rules, 0, NoSelection);
    assert sel.ranks[0] == i < |table.rules|;
    assert RunPolicy(glossary, eval, env, InitialResults(glossary, env).value, table, names[d.table], d, sel)
        == RunSingle(glossary, eval, env, InitialResults(glossary, env).value, table, names[d.table], d, i);
  }

  /** The last rule the R and C loop runs is the executed rule. */
  lemma LastRankedExecuted(glossary: map<Cell, Entry>, eval: Evaluator, table: Table, decision: Cell, tableName: Cell,
                           st: Run, ranked: seq<nat>)
    requires |table.hitPolicy| > 0 && |ranked| > 0
    requires forall k :: 0 <= k < |ranked| ==> ranked[k] < |table.rules|
    requires RankedRuns(glossary, eval, table, decision, tableName, st, ranked).Ok?
    ensures RankedRuns(glossary, eval, table, decision, tableName, st, ranked).value.executed
              == Some(Executed(decision, tableName, table.rules[ranked[|ranked| - 1]].ruleId))
  {
    var st1 := RankedRuns(glossary, eval, table, decision, tableName, st, ranked[..|ranked| - 1]);
    assert st1.Ok?;
    assert RankedRuns(glossary, eval, table, decision, tableName, st, ranked)
        == RankedStep(glossary, eval, table, decision, tableName, st1.value, table.rules[ranked[|ranked| - 1]]);
  }

  /** Under R and C a decision runs the matching rules after the first, in
      rule order, from the starting results: the first match's outputs are
      never applied, and the last match, if there are two or more, is the
      executed rule. */
  lemma CollectDecision(glossary: map<Cell, Entry>, eval: Evaluator, tables: map<Cell, Table>, names: map<Cell, Cell>,
                        env: Env, d: Decision)
    requires d.table in tables && d.table in names && CollectPolicy(tables[d.table].hitPolicy)
    requires InputsPass(glossary, eval, env, d) == Some(true)
    requires NoRaise(glossary, eval, env, tables[d.table].rules, 0)
    requires InitialResults(glossary, env).Ok?
    ensures var table := tables[d.table];
            var ms := MatchingFrom(glossary, eval, env, table.rules, 0);
            var o := RunDecision(glossary, eval, tables, names, env, d);
            && (ms == [] ==> o == NoMatch(d.table))
            && (ms != [] ==>
                  var runs := RankedRuns(glossary, eval, table, names[d.table], d.table,
                                         Run(env, InitialResults(glossary, env).value, None, []), ms[1..]);
                  (runs.Raise? ==> o == TableRaised)
                  && (runs.Ok? ==> o == Done(NewData(runs.value.results, runs.value.executed,
                                                     if |ms| > 1 then d.annotations else [], runs.value.annotations),
                                             runs.value.env)))
            && (|ms| > 1 && o.Done? ==>
                  o.data.executed == Some(Executed(names[d.table], d.table, table.rules[ms[|ms| - 1]].ruleId)))
  {
    var table := tables[d.table];
    var ms := MatchingFrom(glossary, eval, env, table.rules, 0);
    CollectedFrom(glossary, eval, env, table.hitPolicy, table.rules, 0, []);
    assert [] + ms == ms;
    var sel := Select(glossary, eval, env, table.hitPolicy, table.rules);
    assert sel == Selection(None, ms, []);
    if |ms| > 1 {
      var runs := RankedRuns(glossary, eval, table, names[d.table], d.table,
                             Run(env, InitialResults(glossary, env).value, None, []), ms[1..]);
      if runs.Ok? {
        LastRankedExecuted(glossary, eval, table, names[d.table], d.table,
                           Run(env, InitialResults(glossary, env).value, None, []), ms[1..]);
      }
    }
  }

  /** Under R and C one matching rule is not run at all: the table gives
      the starting results, no executed rule and no annotations. */
  lemma CollectSingleMatch(glossary: map<Cell, Entry>, eval: Evaluator, tables: map<Cell, Table>, names: map<Cell, Cell>,
                           env: Env, d: Decision)
    requires d.table in tables && d.table in names && CollectPolicy(tables[d.table].hitPolicy)
    requires InputsPass(glossary, eval, env, d) == Some(true)
    requires NoRaise(glossary, eval, env, tables[d.table].rules, 0)
    requires |MatchingFrom(glossary, eval, env, tables[d.table].rules, 0)| == 1
    requires InitialResults(glossary, env).Ok?
    ensures RunDecision(glossary, eval, tables, names, env, d) == Done(NewData(InitialResults(glossary, env).value, None, [], []), env)
  {
    CollectDecision(glossary, eval, tables, names, env, d);
    assert MatchingFrom(glossary, eval, env, tables[d.table].rules, 0)[1..] == [];
  }

  /** Under O a table with a matching rule always raises: the rank list of
      the first match is built, and what follows it fails. */
  lemma OutputOrderRaises(glossary: map<Cell, Entry>, eval: Evaluator, tables: map<Cell, Table>, names: map<Cell, Cell>,
                          env: Env, d: Decision)
    requires d.table in tables && tables[d.table].hitPolicy == "O"
    requires InputsPass(glossary, eval, env, d) == Some(true)
    requires MatchingFrom(glossary, eval, env, tables[d.table].rules, 0) != []
    ensures RunDecision(glossary, eval, tables, names, env, d).TableRaised?
  {
    var rules := tables[d.table].rules;
    RankedOrRaised(glossary, eval, env, "O", rules, 0, []);
    assert [] + MatchingFrom(glossary, eval, env, rules, 0) == MatchingFrom(glossary, eval, env, rules, 0);
    var sel := Select(glossary, eval, env, "O", rules);
    assert sel.SelectRaised? || sel.ranks != [];
  }

  // ---------------------------------------------------------------------
  // The loops, one step at a time: once a loop stops, later elements
  // change nothing.

  lemma {:induction false} DataStopIsFinal(glossary: map<Cell, Entry>, eval: Evaluator, env: Env,
                                          data: seq<(string, Value)>, more: seq<(string, Value)>)
    requires !LoadData(glossary, eval, env, data).Loading?
    ensures LoadData(glossary, eval, env, data + more) == LoadData(glossary, eval, env, data)
    decreases |more|
  {
    if |more| > 0 {
      DataStopIsFinal(glossary, eval, env, data, more[..|more| - 1]);
      assert (data + more)[..|data + more| - 1] == data + more[..|more| - 1];
    } else {
      assert data + more == data;
    }
  }

  lemma DatumAt(glossary: map<Cell, Entry>, eval: Evaluator, env: Env, data: seq<(string, Value)>, k: nat,
                env1: Env, errors: seq<Error>, valid: bool)
    requires k < |data| && LoadData(glossary, eval, env, data[..k]) == Loading(env1, errors, valid)
    ensures LoadData(glossary, eval, env, data[..k + 1]) == LoadDatum(glossary, eval, env1, errors, valid, data[k])
    ensures !LoadDatum(glossary, eval, env1, errors, valid, data[k]).Loading? ==>
              LoadData(glossary, eval, env, data) == LoadDatum(glossary, eval, env1, errors, valid, data[k])
  {
    var pre := data[..k + 1];
    assert pre[..|pre| - 1] == data[..k] && pre[|pre| - 1] == data[k];
    if !LoadDatum(glossary, eval, env1, errors, valid, data[k]).Loading? {
      DataStopIsFinal(glossary, eval, env, pre, data[k + 1..]);
      assert pre + data[k + 1..] == data;
    }
  }

  lemma DecisionAt(glossary: map<Cell, Entry>, order: seq<Cell>, eval: Evaluator, tables: map<Cell, Table>, names: map<Cell, Cell>,
                   env: Env, ds: seq<Decision>, k: nat, env1: Env, all: seq<NewData>)
    requires k < |ds| && RunDecisions(glossary, eval, tables, names, env, ds[..k]) == Progress(env1, all)
    ensures RunDecisions(glossary, eval, tables, names, env, ds[..k + 1]) == DecisionStep(glossary, eval, tables, names, env1, all, ds[k])
    ensures DecisionsReports(glossary, order, eval, tables, names, env, ds[..k + 1])
            == DecisionsReports(glossary, order, eval, tables, names, env, ds[..k])
               + DecisionReports(glossary, order, eval, tables, names, env1, ds[k])
    ensures !DecisionStep(glossary, eval, tables, names, env1, all, ds[k]).Progress? ==>
              RunDecisions(glossary, eval, tables, names, env, ds) == DecisionStep(glossary, eval, tables, names, env1, all, ds[k])
              && DecisionsReports(glossary, order, eval, tables, names, env, ds)
                 == DecisionsReports(glossary, order, eval, tables, names, env, ds[..k + 1])
  {
    var pre := ds[..k + 1];
    assert pre[..|pre| - 1] == ds[..k] && pre[|pre| - 1] == ds[k];
    if !DecisionStep(glossary, eval, tables, names, env1, all, ds[k]).Progress? {
      UnmatchedIsFinal(glossary, eval, tables, names, env, pre, ds[k + 1..]);
      assert pre + ds[k + 1..] == ds;
    }
  }

  lemma {:induction false} OutputsRaiseIsFinal(glossary: map<Cell, Entry>, eval: Evaluator, st: (Env, Results),
                                              outs: seq<(Cell, string)>, more: seq<(Cell, string)>)
    requires SetOutputs(glossary, eval, st, outs).Raise?
    ensures SetOutputs(glossary, eval, st, outs + more).Raise?
    decreases |more|
  {
    if |more| > 0 {
      OutputsRaiseIsFinal(glossary, eval, st, outs, more[..|more| - 1]);
      assert (outs + more)[..|outs + more| - 1] == outs + more[..|more| - 1];
    } else {
      assert outs + more == outs;
    }
  }

  lemma OutputAt(glossary: map<Cell, Entry>, eval: Evaluator, st: (Env, Results), outs: seq<(Cell, string)>, k: nat, st1: (Env, Results))
    requires k < |outs| && SetOutputs(glossary, eval, st, outs[..k]) == Ok(st1)
    ensures SetOutputs(glossary, eval, st, outs[..k + 1]) == SetOutput(glossary, eval, st1, outs[k])
    ensures OutputsReports(glossary, eval, st, outs[..k + 1])
            == OutputsReports(glossary, eval, st, outs[..k]) + OutputReports(glossary, eval, st1.0, outs[k])
    ensures SetOutput(glossary, eval, st1, outs[k]).Raise? ==> SetOutputs(glossary, eval, st, outs).Raise?
  {
    OutputUnfolds(glossary, eval, st, outs, k, st1);
    if SetOutput(glossary, eval, st1, outs[k]).Raise? {
      OutputRaiseAt(glossary, eval, st, outs, k);
    }
  }

  lemma OutputUnfolds(glossary: map<Cell, Entry>, eval: Evaluator, st: (Env, Results), outs: seq<(Cell, string)>, k: nat, st1: (Env, Results))
    requires k < |outs| && SetOutputs(glossary, eval, st, outs[..k]) == Ok(st1)
    ensures SetOutputs(glossary, eval, st, outs[..k + 1]) == SetOutput(glossary, eval, st1, outs[k])
    ensures OutputsReports(glossary, eval, st, outs[..k + 1])
            == OutputsReports(glossary, eval, st, outs[..k]) + OutputReports(glossary, eval, st1.0, outs[k])
  {
    var pre := outs[..k + 1];
    assert pre[..|pre| - 1] == outs[..k] && pre[|pre| - 1] == outs[k];
  }

  lemma OutputRaiseAt(glossary: map<Cell, Entry>, eval: Evaluator, st: (Env, Results), outs: seq<(Cell, string)>, k: nat)
    requires k < |outs| && SetOutputs(glossary, eval, st, outs[..k + 1]).Raise?
    ensures SetOutputs(glossary, eval, st, outs).Raise?
  {
    OutputsRaiseIsFinal(glossary, eval, st, outs[..k + 1], outs[k + 1..]);
    assert outs[..k + 1] + outs[k + 1..] == outs;
  }

  lemma {:induction false} AggRaiseIsFinal(glossary: map<Cell, Entry>, eval: Evaluator, policy: string, st: (Env, Results),
                                          outs: seq<(Cell, string)>, more: seq<(Cell, string)>)
    requires |policy| > 0
    requires AggOutputs(glossary, eval, policy, st, outs).Raise?
    ensures AggOutputs(glossary, eval, policy, st, outs + more).Raise?
    decreases |more|
  {
    if |more| > 0 {
      AggRaiseIsFinal(glossary, eval, policy, st, outs, more[..|more| - 1]);
      assert (outs + more)[..|outs + more| - 1] == outs + more[..|more| - 1];
    } else {
      assert outs + more == outs;
    }
  }

  lemma AggAt(glossary: map<Cell, Entry>, eval: Evaluator, policy: string, st: (Env, Results), outs: seq<(Cell, string)>,
              k: nat, st1: (Env, Results))
    requires |policy| > 0
    requires k < |outs| && AggOutputs(glossary, eval, policy, st, outs[..k]) == Ok(st1)
    ensures AggOutputs(glossary, eval, policy, st, outs[..k + 1]) == AggOutput(glossary, eval, policy, st1, outs[k], k == 0)
    ensures AggReports(glossary, eval, policy, st, outs[..k + 1])
            == AggReports(glossary, eval, policy, st, outs[..k]) + OutputReports(glossary, eval, st1.0, outs[k])
    ensures AggOutput(glossary, eval, policy, st1, outs[k], k == 0).Raise? ==> AggOutputs(glossary, eval, policy, st, outs).Raise?
  {
    var pre := outs[..k + 1];
    assert pre[..|pre| - 1] == outs[..k] && pre[|pre| - 1] == outs[k];
    if AggOutput(glossary, eval, policy, st1, outs[k], k == 0).Raise? {
      AggRaiseIsFinal(glossary, eval, policy, st, pre, outs[k + 1..]);
      assert pre + outs[k + 1..] == outs;
    }
  }

  lemma {:induction false} RankedRaiseIsFinal(glossary: map<Cell, Entry>, eval: Evaluator, table: Table, decision: Cell, tableName: Cell,
                                             st: Run, ranked: seq<nat>, more: seq<nat>)
    requires |table.hitPolicy| > 0
    requires forall k :: 0 <= k < |ranked| ==> ranked[k] < |table.rules|
    requires forall k :: 0 <= k < |more| ==> more[k] < |table.rules|
    requires RankedRuns(glossary, eval, table, decision, tableName, st, ranked).Raise?
    ensures RankedRuns(glossary, eval, table, decision, tableName, st, ranked + more).Raise?
    decreases |more|
  {
    if |more| > 0 {
      RankedRaiseIsFinal(glossary, eval, table, decision, tableName, st, ranked, more[..|more| - 1]);
      assert (ranked + more)[..|ranked + more| - 1] == ranked + more[..|more| - 1];
    } else {
      assert ranked + more == ranked;
    }
  }

  lemma RankedAt(glossary: map<Cell, Entry>, eval: Evaluator, table: Table, decision: Cell, tableName: Cell,
                 st: Run, ranked: seq<nat>, k: nat, st1: Run)
    requires |table.hitPolicy| > 0
    requires forall j :: 0 <= j < |ranked| ==> ranked[j] < |table.rules|
    requires k < |ranked| && RankedRuns(glossary, eval, table, decision, tableName, st, ranked[..k]) == Ok(st1)
    ensures RankedRuns(glossary, eval, table, decision, tableName, st, ranked[..k + 1])
            == RankedStep(glossary, eval, table, decision, tableName, st1, table.rules[ranked[k]])
    ensures RankedReports(glossary, eval, table, decision, tableName, st, ranked[..k + 1])
            == RankedReports(glossary, eval, table, decision, tableName, st, ranked[..k])
               + AggReports(glossary, eval, table.hitPolicy, (st1.env, st1.results), table.rules[ranked[k]].outputs)
    ensures RankedStep(glossary, eval, table, decision, tableName, st1, table.rules[ranked[k]]).Raise? ==>
              RankedRuns(glossary, eval, table, decision, tableName, st, ranked).Raise?
  {
    var pre := ranked[..k + 1];
    assert pre[..|pre| - 1] == ranked[..k] && pre[|pre| - 1] == ranked[k];
    if RankedStep(glossary, eval, table, decision, tableName, st1, table.rules[ranked[k]]).Raise? {
      RankedRaiseIsFinal(glossary, eval, table, decision, tableName, st, pre, ranked[k + 1..]);
      assert pre + ranked[k + 1..] == ranked;
    }
  }
}
