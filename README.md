# A Dafny model of the embedded DMN rule engine

This project models the embedded DMN rule engine `DMN` in
`embedded/pyDMNrules/DMNrules.py`. It decides business questions with
decision tables, following the Decision Model and Notation standard (hit
policies from section 8.2.11 of DMN 1.1, simple expressions from chapter 9).

A rules book has three parts:

- a Glossary sheet, which binds business variables to S-FEEL items
  `Concept.Attribute`;
- a Decision sheet, which lists the decision tables to run in order, each
  guarded by input tests;
- the decision tables themselves.

`load` reads the book. `decide` then assigns a dictionary of data to the
glossary items, runs each scheduled table under its hit policy, and returns
the results together with the error list.

The model has these parts:

- `common.dfy` (module `Common`): spreadsheet cells as `Option<string>`, the
  Python string operations the engine uses (`strip`, `find`, `split`,
  `join`), runtime values and the entries of the error list.
- `value_sfeel.dfy` (`ValueSfeel`): the S-FEEL literal writer `value2sfeel`,
  with `list2sfeel` and `dict2sfeel`.
- `test_sfeel.dfy` (`TestSfeel`): the input-entry translator `test2sfeel`
  and its helper `data2sfeel`. The S-FEEL lexer is a function parameter that
  yields tokens.
- `hit_policy.dfy` (`HitPolicy`): the hit-policy check of a decision table
  and the check that P and O tables list their ranked output values.
- `glossary.dfy` (`Glossary`): the Glossary row loop of `load`.
- `decision_sheet.dfy` (`DecisionSheet`): the heading state machine of the
  Decision table and its row loop.
- `rules.dfy` (`Rules`): `decide` as functions. These cover rule matching,
  the hit-policy branches, the R and C aggregations, the data loop and the
  decisions loop.
- `dmn.dfy` (`Engine`): the whole of `load` as a function over the engine's
  fields (`LoadBook`), and the class `DMN`.
  - The fields of `DMN` are those of the source object.
  - Its methods are the source's loops, each proved equal to the
    specification function it implements.
  - The ghost predicate `Valid()` (a loaded engine has a loaded glossary) is
    kept by the constructor, `Load` and `Decide`.

### What stands in for the libraries

- **S-FEEL evaluator.** The parser `pySFeel` is a parameter `eval` of type
  `Evaluator`, with two parts. `Env` maps S-FEEL items to their values.
  - `eval.evaluate(env, text)` is the value of a text.
  - `eval.reports(env, text)` is the list of messages the parser returns in
    its status. Each call of `sfeel` appends them to the error list as
    `ParserError` entries, so they reach the `load` stop after the
    Glossary and the errors `decide` returns.
- **Assignment.** `item <- text` writes `eval.evaluate(env, text)` into
  `item`; what it reports is what the parser reports for the statement
  `item <- text`.
- **Unset items.** An item that was never set reads as `Null`.
- **Spreadsheet tables.** A table is a sequence of rows of cells, starting
  at the title row, with the width measured by `tableSize`.
- **Decision tables.** A table found on a rules sheet reaches the model as a
  `TableSource`:
  - its name;
  - its hit-policy cell;
  - its validity row;
  - its annotation headings;
  - its parsed rules.

### Modelled as written

The model keeps the following behaviours of the source, each of which is
stated by a lemma:

- **`data2sfeel` reports every lexer error.** It means to report only the
  first lexer error token, but the flag that would stop it is never set.
  So every error token is reported (`TestSfeel.TokensAccountedFor`).
- **A trailing ` not` is dropped silently.** It is stripped from an
  unbracketed test and otherwise ignored (`TestSfeel.TrailingNotIgnored`).
- **A test that mentions its variable bypasses the other cases.** It is
  taken as a whole expression (`TestSfeel.WholeTests`).
- **U, A and F take the first match.** They take the first matching rule
  and never reject overlapping rules (`Rules.FirstMatchChosen`).
- **R and C aggregate over all matches but the first.** They fold the
  outputs of `rankedRules[1:]`, so the first matching rule's outputs are
  never applied, and the last match is the executed rule
  (`Rules.CollectDecision`).
  - With a single match the loop does not run, so the results are the
    starting values of the variables and there is no executed rule
    (`Rules.CollectSingleMatch`).
  - A C< or C> result that is still false is reset by writing `None`
    under the key of the glossary item, not of the variable.
  - Only a rule's first output is reset. A variable in a later output
    column starts from its value as it is, so under R, C, C+ and C# a null
    value there raises (`Rules.LaterOutputFromNullRaises`).
  - See `Rules.RankedAggregates`.
- **P and O raise on a second match.** The rank insertion for a second
  matching rule evaluates `len(range(ranks))`, and `range` of a list raises
  a `TypeError` (`Rules.RankedOrRaised`).
- **O raises on any match.** The O branch calls `append` with two arguments
  and raises (`Rules.OutputOrderRaises`).
- **An unknown input heading on the Decision sheet raises.** Its error
  message names a local `table` that is not yet bound, so the load raises
  instead of reporting the error (`DecisionSheet.HeadingCases`).
- **A failed load keeps the loaded flag.** A load that fails after an
  earlier successful one keeps `isLoaded`, together with the fields the
  failing step had already replaced (`Engine.FailedLoadKeepsState`).

Every Python exception on these paths is an explicit outcome: `Raised`,
`HeadingCrash`, `TablesRaised`, `TableRaised` or `DecideRaised`.

## Model

| member | source | states |
|---|---|---|
| ValueSfeel.NatDecimalRoundTrip | embedded/pyDMNrules/DMNrules.py:279-280 | the decimal text of a natural number is canonical (no leading zero) and reads back to the number |
| ValueSfeel.EscapeQuotesFacts | embedded/pyDMNrules/DMNrules.py:285 | escaping double quotes adds one character per quote, never produces a leading quote, and is undone by unescaping |
| ValueSfeel.ScalarEncodings | embedded/pyDMNrules/DMNrules.py:270-280 | None gives `null`; True and False give `true` and `false` (booleans are tested before integers); an integer gives text that reads back to it, `-` and canonical digits when negative |
| ValueSfeel.StringEncoding | embedded/pyDMNrules/DMNrules.py:281-285 | a string that is a glossary variable is returned unchanged; any other string is quoted, grows by 2 plus its quote count, and unescapes back to itself |
| ValueSfeel.ListEncoding | embedded/pyDMNrules/DMNrules.py:242-253 | a list gives `[`, its element texts joined by `,`, and `]`; the empty list gives `[]` |
| ValueSfeel.DictEncoding | embedded/pyDMNrules/DMNrules.py:255-267 | a dictionary gives `{"k1":v1,...}` with the keys in insertion order |
| ValueSfeel.EncodingSucceeds | embedded/pyDMNrules/DMNrules.py:242-307 | the writer gives text exactly when no unsupported value occurs anywhere inside; it gives None (with an error) exactly for an unsupported value at the top; otherwise it raises |
| TestSfeel.PartTexts | embedded/pyDMNrules/DMNrules.py:179-185 | a comma list is translated part by part, each part stripped, one text per part |
| TestSfeel.TokensAccountedFor | embedded/pyDMNrules/DMNrules.py:35-43 | every lexer token is either reported as one syntax error at the cell or kept; the errors number exactly the error tokens |
| TestSfeel.KeptTextsNonEmpty | embedded/pyDMNrules/DMNrules.py:44-53 | a kept token with text is written back with text |
| TestSfeel.VariableTranslation | embedded/pyDMNrules/DMNrules.py:31-33 | a glossary variable is replaced by its item, with no error |
| TestSfeel.DataTranslation | embedded/pyDMNrules/DMNrules.py:31-54 | other text becomes its non-error tokens joined by single spaces (a non-item name quoted), with one syntax error per error token |
| TestSfeel.WholeTests | embedded/pyDMNrules/DMNrules.py:74-84 | a test mentioning the variable is translated as a whole expression; otherwise `not null` gives `v != null` |
| TestSfeel.NoWrappers | embedded/pyDMNrules/DMNrules.py:78-94 | a test opening with a letter other than `n` or `i` carries no `not` or `in` wrapper |
| TestSfeel.NotPrefix | embedded/pyDMNrules/DMNrules.py:80-82 | a `not ` prefix is removed and the rest stripped |
| TestSfeel.ToUnwrapped | embedded/pyDMNrules/DMNrules.py:57-94 | after the fixed forms, the variable check and `not null`, the test is unwrapped of `not` and then `in` |
| TestSfeel.UnbracketedByHead | embedded/pyDMNrules/DMNrules.py:110-125 | a test that opens with neither a quote nor a bracket reaches the unbracketed branch |
| TestSfeel.ToSimple | embedded/pyDMNrules/DMNrules.py:95-126 | an unwrapped test with no ` in `, that is not empty, not a quoted string and not enclosed in brackets, is a simple test |
| TestSfeel.ToBracket | embedded/pyDMNrules/DMNrules.py:124-125 | an unwrapped test enclosed in brackets, with no ` in ` and not a quoted string, is a bracketed test |
| TestSfeel.SimpleExpression | embedded/pyDMNrules/DMNrules.py:138-176 | a comma-free simple test is the operator-and-expression text built from its leading operator and translated rest |
| TestSfeel.SimpleList | embedded/pyDMNrules/DMNrules.py:177-189 | a simple test with a comma is `v in(...)`, or `v not in(...)` under `not`, over the translated list |
| TestSfeel.RelOpOf | embedded/pyDMNrules/DMNrules.py:142-149 | the longest relational operator at the head of a text is split off |
| TestSfeel.FixedForms | embedded/pyDMNrules/DMNrules.py:59-72 | `not()`, `odd()`, `even()` become `f(v)`; `upper case()`, `lower case()`, `flatten()` become `v = f(v)`; no error |
| TestSfeel.BadTests | embedded/pyDMNrules/DMNrules.py:57-113 | every test that reaches the unwrapping (no fixed form, no mention of the variable, not `not null`) and is empty or a lone `"` once its `not` and `in` wrappers are removed appends exactly one Bad S-FEEL error and becomes `null` |
| TestSfeel.Comparison | embedded/pyDMNrules/DMNrules.py:142-174 | a test opening with `<=`, `>=`, `!=`, `<`, `>` or `=` gives `v op e` |
| TestSfeel.NegatedComparison | embedded/pyDMNrules/DMNrules.py:159-161 | `not` before such a test gives `v not op e` |
| TestSfeel.Equality | embedded/pyDMNrules/DMNrules.py:57-176 | every test with no fixed form, no `not` or `in` wrapper and no leading operator that reaches the unbracketed branch and has no comma, ` in ` or trailing ` in`/` not` gives `v = e`, with `e` the translated test |
| TestSfeel.NegatedEquality | embedded/pyDMNrules/DMNrules.py:80-163 | `not ` before such a test (other than `null`) gives `v not e` |
| TestSfeel.ListMembership | embedded/pyDMNrules/DMNrules.py:177-189 | every unbracketed comma list with no `not` or `in` wrapper gives `v in(e1,...,en)` |
| TestSfeel.NegatedListMembership | embedded/pyDMNrules/DMNrules.py:80-187 | `not ` or `not(...)` around an unbracketed comma list gives `v not in(e1,...,en)` |
| TestSfeel.TrailingNotIgnored | embedded/pyDMNrules/DMNrules.py:130-136 | a trailing ` not` on an unbracketed test is removed and has no effect on the translation |
| TestSfeel.QuotedString | embedded/pyDMNrules/DMNrules.py:110-123 | a double-quoted string with no wrappers is returned as it is, with no error |
| TestSfeel.ToBracketTest | embedded/pyDMNrules/DMNrules.py:190-193 | a bracketed test with no wrapper is handled by the bracket branch |
| TestSfeel.Range | embedded/pyDMNrules/DMNrules.py:219-239 | a bracketed `a..b` gives `v in <open>a .. b<close>`, keeping both bracket characters |
| TestSfeel.InvalidRangeTest | embedded/pyDMNrules/DMNrules.py:220-223 | a `..` that does not split into two parts appends an invalid-range error and gives `v = "<inner>"` |
| TestSfeel.BracketList | embedded/pyDMNrules/DMNrules.py:195-218 | a `[...]` list without `..` gives `v = [e1,...,en]` |
| HitPolicy.CheckHitPolicy | embedded/pyDMNrules/DMNrules.py:395-408 | a rejected policy carries the invalid-hit-policy error for the table; an accepted one is the stripped cell text, or `U` |
| HitPolicy.ValidPolicyShape | embedded/pyDMNrules/DMNrules.py:401-407 | the valid policies are the letters U, A, P, F, C, O, R, alone or followed by one of `+ < > #` |
| HitPolicy.HitPolicyAccepted | embedded/pyDMNrules/DMNrules.py:395-408 | a policy is accepted exactly when valid, rejected exactly when non-blank and invalid, and raises exactly when blank |
| HitPolicy.EmptyCellIsUnique | embedded/pyDMNrules/DMNrules.py:396-397 | an empty hit-policy cell means U |
| HitPolicy.RanksFound | embedded/pyDMNrules/DMNrules.py:472-478 | ranks are found exactly when some validity cell after the first column is filled |
| HitPolicy.RankCheck | embedded/pyDMNrules/DMNrules.py:512-519 | a rejection is the missing-rank-list error for the table and policy |
| HitPolicy.RankCheckRejects | embedded/pyDMNrules/DMNrules.py:512-519 | a table is rejected exactly when its policy is P or O and it has no validity row or an empty one |
| HitPolicy.AggregatedNeedsNoRanks | embedded/pyDMNrules/DMNrules.py:512-519 | two-character policies are never asked for ranks |
| Glossary.GlossaryRow | embedded/pyDMNrules/DMNrules.py:1149-1189 | a row keeps the current concept registered, and an accepted row leaves a current concept |
| Glossary.GlossaryRows | embedded/pyDMNrules/DMNrules.py:1148-1189 | the row loop keeps the current concept registered |
| Glossary.LoadGlossary | embedded/pyDMNrules/DMNrules.py:1132-1189 | the heading checks and row loop keep the current concept registered |
| Glossary.RowAccepted | embedded/pyDMNrules/DMNrules.py:1149-1189 | a row is accepted exactly when the variable is new, a concept is in force, its own concept is new and dot-free, and its attribute is present and dot-free; the variable then maps to `concept.attribute` and back, and is filed under the concept |
| Glossary.BlankConceptInherits | embedded/pyDMNrules/DMNrules.py:1156-1176 | a blank concept cell files the variable under the concept of the row above |
| Glossary.RowKeepsConsistent | embedded/pyDMNrules/DMNrules.py:1184-1189 | one row keeps the glossary, item map and concept map mutually consistent |
| Glossary.AddKeepsConsistent | embedded/pyDMNrules/DMNrules.py:1184-1189 | filing a new variable and its item under a dot-free concept keeps the glossary consistent |
| Glossary.AddKeepsOrdered | embedded/pyDMNrules/DMNrules.py:1184-1188 | filing a new variable keeps the variable and item orders listing each variable and item once |
| Glossary.AddKeepsItems | embedded/pyDMNrules/DMNrules.py:1184-1188 | filing a new variable keeps the item map and the glossary inverse to each other |
| Glossary.AddKeepsConcepts | embedded/pyDMNrules/DMNrules.py:1184-1188 | filing a new variable under a dot-free concept keeps every variable filed under its concept |
| Glossary.RowsKeepConsistent | embedded/pyDMNrules/DMNrules.py:1148-1189 | the row loop keeps them consistent |
| Glossary.LoadIsConsistent | embedded/pyDMNrules/DMNrules.py:1132-1189 | whatever the load stops on, the glossary it leaves is consistent |
| Glossary.LoadIsOrdered | embedded/pyDMNrules/DMNrules.py:1132-1189 | whatever the load stops on, its orders list the glossary's variables and items, each once |
| Glossary.RowsDefineOneVariableEach | embedded/pyDMNrules/DMNrules.py:1148-1189 | a successful loop defines one new variable per row |
| Glossary.StopIsFinal | embedded/pyDMNrules/DMNrules.py:1151-1183 | once a row stops the load, later rows change nothing |
| DecisionSheet.InputPrefix | embedded/pyDMNrules/DMNrules.py:1241-1256 | the input columns are the leading headings that are glossary variables and not `Decisions` |
| DecisionSheet.HeadingCases | embedded/pyDMNrules/DMNrules.py:1238-1275 | every outcome of the heading scan: missing `Decisions`, a crash on an unknown input heading, missing or bad `Execute Decision Tables`, or acceptance |
| DecisionSheet.HeadingAccepted | embedded/pyDMNrules/DMNrules.py:1241-1275 | the heading is accepted with n inputs exactly when n glossary variables are followed by `Decisions` and `Execute Decision Tables` |
| DecisionSheet.TestedColumns | embedded/pyDMNrules/DMNrules.py:1283-1296 | tested columns are input columns |
| DecisionSheet.TestedColumnsAre | embedded/pyDMNrules/DMNrules.py:1283-1296 | the tested columns are, in increasing order, exactly the input cells that are neither blank nor `-` |
| DecisionSheet.InputTests | embedded/pyDMNrules/DMNrules.py:1283-1316 | one input test per tested column |
| DecisionSheet.AnnotationCells | embedded/pyDMNrules/DMNrules.py:1327-1329 | the annotations pair each heading after the table column with the row's cell |
| DecisionSheet.ScheduledMeans | embedded/pyDMNrules/DMNrules.py:1322-1333 | a scheduled sheet names each table once, and the table map's keys are exactly the tables named |
| DecisionSheet.RowKeepsScheduled | embedded/pyDMNrules/DMNrules.py:1317-1333 | one row keeps the sheet scheduled |
| DecisionSheet.RowsKeepScheduled | embedded/pyDMNrules/DMNrules.py:1277-1333 | the row loop keeps the sheet scheduled |
| DecisionSheet.StoppedIsFinal | embedded/pyDMNrules/DMNrules.py:1322-1326 | once a repeated table stops the load, later rows change nothing |
| DecisionSheet.StoppedReports | embedded/pyDMNrules/DMNrules.py:1322-1326 | a stopped pass ends with the repeated-table error |
| DecisionSheet.RowsScheduleInOrder | embedded/pyDMNrules/DMNrules.py:1277-1333 | a successful pass schedules one decision per row, in row order, with the row's table, annotations and decision name |
| DecisionSheet.OneTestPerCell | embedded/pyDMNrules/DMNrules.py:1283-1316 | each tested cell adds exactly one test, its heading with the translation of its stripped text |
| Rules.Assign | embedded/pyDMNrules/DMNrules.py:1477 | `item <- text` sets the item to the evaluated text and leaves every other item alone |
| Rules.Reports | embedded/pyDMNrules/DMNrules.py:24-28 | one `sfeel` call appends one parser error per message the parser reports for its text |
| Rules.UnquoteFacts | embedded/pyDMNrules/DMNrules.py:1553-1555 | a quoted string loses its quotes; the empty string raises; non-strings and unquoted strings are kept |
| Rules.RuleMatchesIff | embedded/pyDMNrules/DMNrules.py:1504-1511 | a rule matches exactly when each test is on a known variable and evaluates true; a rule with no tests matches |
| Rules.TestReports | embedded/pyDMNrules/DMNrules.py:1489-1511 | what a rule's or a decision's tests report are parser reports only |
| Rules.TestsFrom | embedded/pyDMNrules/DMNrules.py:1489-1496 | one step of the tests loop: an unknown variable raises with nothing more reported; a known one reports its two reads, then a false test ends the loop and a true one goes on |
| Rules.FirstHit | embedded/pyDMNrules/DMNrules.py:1503-1515 | the first rule from i on whose tests do not fail |
| Rules.FirstHitSelectedFrom | embedded/pyDMNrules/DMNrules.py:1503-1515 | under U, A, F the rule loop stops at that rule: found if it matches, raised otherwise |
| Rules.FirstMatchChosen | embedded/pyDMNrules/DMNrules.py:1503-1515 | under U, A, F rule i is chosen exactly when it matches and every earlier rule fails; none is chosen exactly when every rule fails |
| Rules.MatchingFrom | embedded/pyDMNrules/DMNrules.py:1503-1517 | the matching rules from i on are rule indices from i on |
| Rules.AllMatchesCollected | embedded/pyDMNrules/DMNrules.py:1503-1517 | under R and C every matching rule is collected in ascending order; the loop raises exactly when some rule tests an unknown variable |
| Rules.RankedSingleMatch | embedded/pyDMNrules/DMNrules.py:1518-1546 | under P and O one match is recorded, and a second match raises |
| Rules.RankedOrRaised | embedded/pyDMNrules/DMNrules.py:1518-1546 | under P and O the loop either raises or records the single match, if any |
| Rules.InitialResults | embedded/pyDMNrules/DMNrules.py:1547-1556 | the starting results have exactly the glossary variables as keys |
| Rules.InitialResultsAgree | embedded/pyDMNrules/DMNrules.py:1547-1556 | they raise exactly when some item's value cannot be unquoted; otherwise each variable holds its item's unquoted value |
| Rules.OutputsAgree | embedded/pyDMNrules/DMNrules.py:1565-1572 | after a rule's outputs are set, each output variable reports its item's unquoted final value and every other result is unchanged |
| Rules.CollectAppends | embedded/pyDMNrules/DMNrules.py:1611-1612 | R and plain C append the outputs in order |
| Rules.SumAdds | embedded/pyDMNrules/DMNrules.py:1613-1614 | C+ adds the integer outputs |
| Rules.CountCounts | embedded/pyDMNrules/DMNrules.py:1625-1626 | C# adds one per output |
| Rules.MinMaxKept | embedded/pyDMNrules/DMNrules.py:1615-1624 | C< keeps the least and C> the greatest integer output, counting the start value |
| Rules.MinMaxFromNull | embedded/pyDMNrules/DMNrules.py:1615-1624 | from null, C< and C> give the least or greatest of the outputs |
| Rules.AggregatedFromFirst | embedded/pyDMNrules/DMNrules.py:1616-1622 | from null, the first output is taken as it is |
| Rules.RuleAnnotations | embedded/pyDMNrules/DMNrules.py:1574-1578 | the rule annotations pair each table annotation heading with the rule's annotation; none without headings |
| Rules.CombineIsStable | embedded/pyDMNrules/DMNrules.py:1597-1605 | after a combination the reset leaves the running result alone |
| Rules.RankedAggregates | embedded/pyDMNrules/DMNrules.py:1592-1626 | for single-output rules, the R/C loop leaves the reference aggregation (from the reset value) of the outputs it assigned over `rankedRules[1:]` |
| Rules.OthersKeepOutput | embedded/pyDMNrules/DMNrules.py:1594-1626 | the outputs of a rule for variables other than `v` leave `v`'s result and `v`'s item alone, when items are not shared |
| Rules.OutputCombined | embedded/pyDMNrules/DMNrules.py:1594-1626 | in a collected rule with `v` at output position `p`, the value assigned there is combined into `v`'s result, which is reset first only when `p` is the first position |
| Rules.LaterOutputFromNullRaises | embedded/pyDMNrules/DMNrules.py:1596-1614 | under R, C, C+ and C#, a rule in which `v` is a later output raises when `v`'s result is null |
| Rules.FirstOutputFromNull | embedded/pyDMNrules/DMNrules.py:1597-1614 | at a first output the reset lets a numeric value combine where null would raise |
| Rules.ClearItems | embedded/pyDMNrules/DMNrules.py:1389-1390 | every glossary item becomes null and every other item keeps its value; what is gathered is the parser's reports of the `item <- null` statements |
| Rules.DecisionReports | embedded/pyDMNrules/DMNrules.py:1486-1701 | what a decision reports are parser reports only |
| Rules.DecisionsReports | embedded/pyDMNrules/DMNrules.py:1485-1703 | what the decisions loop reports are parser reports only |
| Rules.DecisionReportsAfterTests | embedded/pyDMNrules/DMNrules.py:1486-1701 | a decision whose tests pass reports its tests, then the rule loop, the results loop and the hit-policy branch, and its selection holds rule indices |
| Rules.RunPolicy | embedded/pyDMNrules/DMNrules.py:1557-1701 | a hit-policy branch never skips the decision: only the input tests do |
| Rules.DataLoopErrors | embedded/pyDMNrules/DMNrules.py:1462-1482 | every error of the data loop is an Invalid Data error or a parser report; there is one Invalid Data error per value that cannot be written, and the data is valid exactly when there is none |
| Rules.NoMatchReported | embedded/pyDMNrules/DMNrules.py:1557-1563 | a decision with an unmatched table returns no data; its errors are the parser's reports of the clearing, the data loop and the decisions run, then the no-match error |
| Rules.UnmatchedIsFinal | embedded/pyDMNrules/DMNrules.py:1558-1563 | an unmatched or raising table ends the decisions loop |
| Rules.OneDataPerExecutedDecision | embedded/pyDMNrules/DMNrules.py:1486-1703 | the loop gives at most one data dictionary per scheduled decision |
| Rules.FirstHitDecision | embedded/pyDMNrules/DMNrules.py:1557-1583 | under U, A, F the executed rule is the first matching rule, recorded with its decision, table and rule id, and its outputs are reported unquoted |
| Rules.DecideBeforeLoad | embedded/pyDMNrules/DMNrules.py:1452-1458 | deciding before a load reports only that no rules book is loaded |
| Rules.AnsweredWithReportsOnly | embedded/pyDMNrules/DMNrules.py:1705-1712 | an answer comes only after valid data, and its errors are nothing but the parser's reports of the clearing, the data loop and the decisions run; one executed table gives its data, any other number the list |
| Rules.PriorityDecision | embedded/pyDMNrules/DMNrules.py:1639-1666 | under P the only matching rule is executed |
| Rules.CollectDecision | embedded/pyDMNrules/DMNrules.py:1584-1637 | under R and C, with no raising test, no match gives the no-match outcome; otherwise the table runs the matches after the first, in rule order, from the starting results, taking the decision annotations only when a rule ran, and with two or more matches the last match is the executed rule |
| Rules.CollectSingleMatch | embedded/pyDMNrules/DMNrules.py:1584-1592 | under R and C a single match gives the starting results with no executed rule and no annotations |
| Rules.LastRankedExecuted | embedded/pyDMNrules/DMNrules.py:1627-1633 | the last rule the R and C loop runs is the executed rule |
| Rules.OutputOrderRaises | embedded/pyDMNrules/DMNrules.py:1667-1690 | under O a table with a matching rule raises |
| Engine.LoadTablesValid | embedded/pyDMNrules/DMNrules.py:1335-1362 | every table loaded is scheduled, with a valid hit policy and at least one rule |
| Engine.TablesStopIsFinal | embedded/pyDMNrules/DMNrules.py:1336-1378 | once a decision table stops the load, later tables change nothing |
| Engine.LoadedBook | embedded/pyDMNrules/DMNrules.py:1086-1379 | a successful load has a consistent glossary, all items null, each table scheduled once, and only valid scheduled tables |
| Engine.FailedLoadKeepsState | embedded/pyDMNrules/DMNrules.py:1086-1383 | a load that fails or raises keeps the loaded flag; a failed load reports an error |
| Engine.LoadStopsOnReports | embedded/pyDMNrules/DMNrules.py:1190-1197 | when clearing an accepted Glossary's items makes the parser report anything, the load fails with exactly those reports, keeps the loaded flag and leaves the Decision and table fields as they were |
| Engine.SheetKeepsState | embedded/pyDMNrules/DMNrules.py:1199-1383 | past the Glossary, a load that fails or raises keeps the loaded flag, and one that fails reports an error |
| Engine.TablesKeepState | embedded/pyDMNrules/DMNrules.py:1335-1383 | past the Decision table, likewise |
| Engine.DMN.constructor | embedded/pyDMNrules/DMNrules.py:15-22 | an engine starts with nothing loaded, empty fields and no errors |
| Engine.DMN.Value2Sfeel | embedded/pyDMNrules/DMNrules.py:269-307 | `value2sfeel` is the writer; an unsupported value appends one error |
| Engine.DMN.List2Sfeel | embedded/pyDMNrules/DMNrules.py:242-253 | the accumulator loop gives `[`, the element texts joined by `,`, `]` |
| Engine.DMN.Dict2Sfeel | embedded/pyDMNrules/DMNrules.py:255-267 | the accumulator loop gives `{`, the entries joined by `,`, `}` |
| Engine.DMN.LoadGlossary | embedded/pyDMNrules/DMNrules.py:1104-1189 | the glossary fields are those of the Glossary load, and the error list gains its stopping error |
| Engine.DMN.ReadGlossaryRows | embedded/pyDMNrules/DMNrules.py:1148-1189 | the row loop gives the rows function's outcome, starting from an empty glossary at row offset 2 |
| Engine.DMN.ReadGlossaryRow | embedded/pyDMNrules/DMNrules.py:1149-1189 | one row's checks give the row function's outcome |
| Engine.DMN.StartSheets | embedded/pyDMNrules/DMNrules.py:1190-1213 | marks the glossary loaded, sets every item to null and appends the parser's reports; it goes on exactly when the error list is then empty, clearing the Decision and table fields; nothing else changes |
| Engine.DMN.CheckDecisionHeading | embedded/pyDMNrules/DMNrules.py:1238-1275 | the heading loop gives the heading scan's outcome |
| Engine.DMN.AddInputTest | embedded/pyDMNrules/DMNrules.py:1283-1316 | one input cell gives that column's step of the row's input tests and its translation errors |
| Engine.DMN.RowInputTests | embedded/pyDMNrules/DMNrules.py:1280-1316 | the input columns give the row's tests and append their translation errors |
| Engine.DMN.RowAnnotations | embedded/pyDMNrules/DMNrules.py:1327-1329 | the columns after the table name give the row's annotation pairs |
| Engine.DMN.InitGlossary | embedded/pyDMNrules/DMNrules.py:1385-1390 | without a loaded glossary it appends an error and exits; otherwise every item is null and the parser's reports are appended |
| Engine.DMN.LoadDecisionRow | embedded/pyDMNrules/DMNrules.py:1278-1333 | one Decision row updates the sheet fields as the row function says |
| Engine.DMN.LoadDecisionRows | embedded/pyDMNrules/DMNrules.py:1276-1333 | the row loop updates the sheet fields as the rows function says |
| Engine.DMN.LoadDecisionTables | embedded/pyDMNrules/DMNrules.py:1336-1378 | the table loop stores the tables and reports the first failure |
| Engine.DMN.Load | embedded/pyDMNrules/DMNrules.py:1066-1383 | `load` gives the status and new fields of the load function, which stops after the Glossary when clearing its items makes the parser report anything, and keeps `Valid()` |
| Engine.DMN.LoadAfterGlossary | embedded/pyDMNrules/DMNrules.py:1190-1383 | past an accepted Glossary, the status and fields of the load function's later stages, with the glossary marked loaded |
| Engine.DMN.LoadSheets | embedded/pyDMNrules/DMNrules.py:1199-1383 | the Decision table, then the tables |
| Engine.DMN.TestsPass | embedded/pyDMNrules/DMNrules.py:1489-1496 | the test loop gives the rule-match function |
| Engine.DMN.RunSelected | embedded/pyDMNrules/DMNrules.py:1499-1701 | a decision whose tests pass gives the decision function's outcome; what it reports after the tests is the rest of the decision's reports |
| Engine.DMN.SelectRules | embedded/pyDMNrules/DMNrules.py:1503-1546 | the rule loop gives the selection function |
| Engine.DMN.StartResults | embedded/pyDMNrules/DMNrules.py:1547-1556 | the results loop gives the starting results |
| Engine.DMN.SetRuleOutputs | embedded/pyDMNrules/DMNrules.py:1565-1572 | the output loop gives the new environment and results |
| Engine.DMN.CollectAnnotations | embedded/pyDMNrules/DMNrules.py:1574-1578 | the annotation loop gives the rule annotations |
| Engine.DMN.RunChosen | embedded/pyDMNrules/DMNrules.py:1564-1583 | running the chosen rule gives its data and environment |
| Engine.DMN.AggregateOutputs | embedded/pyDMNrules/DMNrules.py:1594-1626 | one collected rule's outputs are combined into the results |
| Engine.DMN.RunCollected | embedded/pyDMNrules/DMNrules.py:1592-1637 | the collected rules run in order |
| Engine.DMN.RunDecisionTable | embedded/pyDMNrules/DMNrules.py:1486-1703 | one scheduled decision gives the decision function's outcome; a skipped or unmatched table leaves the environment alone |
| Engine.DMN.RunHitPolicy | embedded/pyDMNrules/DMNrules.py:1557-1701 | the branch of the table's hit policy |
| Engine.DMN.AssignData | embedded/pyDMNrules/DMNrules.py:1462-1477 | the data loop gives the data-load function and appends its errors, Invalid Data errors and the parser's reports of the assignments |
| Engine.DMN.AssignDatum | embedded/pyDMNrules/DMNrules.py:1463-1477 | one datum gives the data-load step; what it appends is the Invalid Data error or the parser's reports of its assignment |
| Engine.DMN.RunScheduled | embedded/pyDMNrules/DMNrules.py:1485-1703 | the decisions loop gives the decisions function, the environment carrying over |
| Engine.DMN.Decide | embedded/pyDMNrules/DMNrules.py:1393-1712 | `decide` gives the decide function's answer, whose errors include the parser's reports, empties the error list and keeps `Valid()` |

## Specification functions

The functions that define the behaviour carry no contract of their own
beyond their types. Each is stated by the members of the table above that
name it in their contracts:

| function | source | models | stated by |
|---|---|---|---|
| ValueSfeel.ValueToSfeel | embedded/pyDMNrules/DMNrules.py:242-307 | `value2sfeel` itself | ValueSfeel.EncodingSucceeds, ScalarEncodings, StringEncoding, ListEncoding, DictEncoding; Engine.DMN.Value2Sfeel |
| TestSfeel.DataToSfeel | embedded/pyDMNrules/DMNrules.py:31-54 | `data2sfeel` | TestSfeel.VariableTranslation, DataTranslation, TokensAccountedFor, KeptTextsNonEmpty |
| TestSfeel.TestToSfeel | embedded/pyDMNrules/DMNrules.py:57-239 | `test2sfeel` | TestSfeel.FixedForms, WholeTests, ToUnwrapped, BadTests and the translation rows after them |
| TestSfeel.Unwrapped | embedded/pyDMNrules/DMNrules.py:95-126 | the test once its `not` and `in` wrappers are removed | TestSfeel.ToSimple, ToBracket, QuotedString, BadTests |
| TestSfeel.SimpleTest | embedded/pyDMNrules/DMNrules.py:126-189 | an unbracketed test | TestSfeel.SimpleExpression, SimpleList, Comparison, Equality, ListMembership and their negations |
| TestSfeel.BracketTest | embedded/pyDMNrules/DMNrules.py:190-239 | a bracketed test | TestSfeel.ToBracketTest, Range, InvalidRangeTest, BracketList |
| DecisionSheet.CheckHeading | embedded/pyDMNrules/DMNrules.py:1238-1275 | the heading scan of the Decision table | DecisionSheet.HeadingCases, HeadingAccepted, InputPrefix; Engine.DMN.CheckDecisionHeading |
| DecisionSheet.DecisionRow | embedded/pyDMNrules/DMNrules.py:1278-1333 | one row of the Decision table | DecisionSheet.RowKeepsScheduled, OneTestPerCell, AnnotationCells, StoppedReports; Engine.DMN.LoadDecisionRow |
| DecisionSheet.DecisionRows | embedded/pyDMNrules/DMNrules.py:1276-1333 | the row loop of the Decision table | DecisionSheet.RowsKeepScheduled, RowsScheduleInOrder, StoppedIsFinal; Engine.DMN.LoadDecisionRows |
| Rules.SelectFrom | embedded/pyDMNrules/DMNrules.py:1503-1546 | the rule loop from rule `i` on | Rules.FirstHitSelectedFrom, RankedSingleMatch, RankedOrRaised |
| Rules.Select | embedded/pyDMNrules/DMNrules.py:1503-1546 | the rule loop | Rules.FirstMatchChosen, AllMatchesCollected; Engine.DMN.SelectRules |
| Rules.Combine | embedded/pyDMNrules/DMNrules.py:1611-1626 | one output added under R or C | Rules.CollectAppends, SumAdds, CountCounts, MinMaxKept, FirstOutputFromNull |
| Rules.Reset | embedded/pyDMNrules/DMNrules.py:1596-1605 | the reset before a rule's first output | Rules.CombineIsStable, OutputCombined |
| Rules.AggOutputs | embedded/pyDMNrules/DMNrules.py:1594-1626 | the outputs of one collected rule | Rules.OthersKeepOutput, OutputCombined, LaterOutputFromNullRaises; Engine.DMN.AggregateOutputs |
| Rules.RankedRuns | embedded/pyDMNrules/DMNrules.py:1592-1637 | the collected rules in order | Rules.RankedAggregates; Engine.DMN.RunCollected |
| Rules.RunSingle | embedded/pyDMNrules/DMNrules.py:1557-1583 | the branch that runs one rule, under U, A, F and P | Rules.FirstHitDecision, PriorityDecision; Engine.DMN.RunChosen |
| Rules.RunDecision | embedded/pyDMNrules/DMNrules.py:1486-1701 | one scheduled decision | Rules.DecisionReportsAfterTests, FirstHitDecision, CollectDecision, CollectSingleMatch, PriorityDecision, OutputOrderRaises; Engine.DMN.RunDecisionTable, RunSelected |
| Rules.RunDecisions | embedded/pyDMNrules/DMNrules.py:1485-1703 | the decisions loop | Rules.UnmatchedIsFinal, OneDataPerExecutedDecision; Engine.DMN.RunScheduled |
| Rules.LoadData | embedded/pyDMNrules/DMNrules.py:1462-1482 | the data loop | Rules.DataLoopErrors; Engine.DMN.AssignData, AssignDatum |
| Rules.Decide | embedded/pyDMNrules/DMNrules.py:1393-1712 | `decide` | Rules.DecideBeforeLoad, AnsweredWithReportsOnly, NoMatchReported; Engine.DMN.Decide |
| Engine.TableStep | embedded/pyDMNrules/DMNrules.py:1336-1378 | one decision table of the book | Engine.LoadTablesValid |
| Engine.LoadTables | embedded/pyDMNrules/DMNrules.py:1335-1378 | the decision-table loop | Engine.LoadTablesValid, TablesStopIsFinal, TablesKeepState; Engine.DMN.LoadDecisionTables |
| Engine.LoadBook | embedded/pyDMNrules/DMNrules.py:1066-1383 | `load` | Engine.LoadedBook, FailedLoadKeepsState, LoadStopsOnReports; Engine.DMN.Load |

## Left out

- **Workbook handling.** The model leaves out:
  - opening the workbook and finding its sheets, with the
    "no readable workbook" and "no sheet named" errors;
  - locating the `Glossary` and `Decision` title cells, with the "not
    found" and width errors;
  - `tableSize`, merged cells, the fill-down `mergeCount` bookkeeping and
    the parsed-range bookkeeping of the sheet scan.

  These are spreadsheet-library geometry. Tables reach the model as rows
  from the title cell, at the width `tableSize` measured.
- **Parsing a decision table's body.** The model leaves out
  `parseDecionTable` apart from its hit-policy and rank checks: the rule
  layouts (rules as rows, as columns, crosstab), the input and output
  columns, and their other failure paths. Rules reach the model already
  parsed, and a failing parse is a `TablesStopped` error from the checks
  that are modelled.
- **The S-FEEL lexer and parser.** These are a separate library. The lexer
  is a parameter that yields tokens. The parser is the `Evaluator`
  parameter: a value and a list of messages for each text. `result2sfeel`
  is not part of this model.
- **Floats, dates, times and durations** in `value2sfeel`, and the float
  parsing of ranks. Floating point is out of scope, and the duration
  branch names an undefined variable. Such values are `Unsupported`.
- **Dictionary keys other than strings.** `dict2sfeel` writes a key between
  quotes by string concatenation, so a key of another type raises there.
  Dictionary values in the model have string keys only, so that raise is not
  modelled.
- **Non-string cells.** Cells hold text or nothing. Cell values of other
  types and their `str()` conversion are not modelled.
- **The ordering of P and O rules by rank values.** The source raises
  before it compares ranks, so only the single-match case is modelled.
- **`sys.exit` in `initGlossary`.** It is the result `exited` of
  `Engine.DMN.InitGlossary`, and the process itself is not modelled.
- **The `test()` worksheet runner and the `__main__` demo.** `test()` calls
  `eval` on cell text, and the demo is I/O. The other files of the
  repository are left out too: the Camunda HTTP client, the thin
  embedding wrapper and the desktop prompt.
- **`self.warnings`.** It is set and never used.
- **The order of keys in the `Result` dictionary and object aliasing of its
  lists.** Results are a `map`, and an R or C result list is a value.
- **Python comparison of values other than integers and strings.** A
  comparison across types, of lists or of dictionaries raises in the model.
- Engine.DMN.Load: after an exception (`LoadRaised`) the contract does not
  state the fields, only that `Valid()` holds, because a Python exception
  leaves them mid-update.
- Engine.DMN.RunDecisionTable: on `TableRaised` the contract does not state
  the environment, for the same reason.
- Engine.DMN.Decide: on `DecideRaised` the contract does not state the
  environment or the error list, for the same reason.
- Engine.DMN.RunSelected: on `TableRaised` the contract does not state the
  reports gathered, as a Python exception ends `decide` without returning
  them.
- Rules.RankedAggregates: the whole-loop reference is stated for rules
  whose only output is the variable. For rules with several outputs the
  loop is stated one rule at a time by `Rules.OutputCombined` and
  `Rules.LaterOutputFromNullRaises`, because the values a later output
  produces depend on the other outputs assigned before it.
