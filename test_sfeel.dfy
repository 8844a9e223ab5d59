/** The input-entry translator of the DMN engine (`data2sfeel`,
    `test2sfeel`): a spreadsheet test cell such as `>= 18`, `not(1,2)`,
    `[1..10)` or `odd()` becomes an S-FEEL boolean expression over the
    glossary item of its input column. The S-FEEL lexer is a parameter. */
module TestSfeel {
  import opened Common

  /** A token produced by the S-FEEL lexer: its kind (`NAME`, `ERROR`, ...)
      and its text. */
  datatype Token = Token(kind: string, value: string)

  /** What the translator reads: the glossary (variable to entry), the
      glossary items (item to variable) and the S-FEEL lexer. */
  datatype Context = Context(glossary: map<Cell, Entry>, items: map<string, Cell>, lex: string -> seq<Token>)

  // ---------------------------------------------------------------------
  // data2sfeel

  /** A kept token as written back: a `NAME` that is not a glossary item is
      taken for a string constant and quoted. */
  function TokenText(items: map<string, Cell>, t: Token): string
  {
    if t.kind != "NAME" then t.value
    else if t.value in items then t.value
    else "\"" + t.value + "\""
  }

  /** The tokens that are not lexer errors, in order, as written back. */
  function KeptTexts(items: map<string, Cell>, toks: seq<Token>): seq<string>
  {
    if |toks| == 0 then []
    else (if toks[0].kind == "ERROR" then [] else [TokenText(items, toks[0])]) + KeptTexts(items, toks[1..])
  }

  /** One syntax error per lexer error token: the flag meant to report only
      the first one is never set, so every error token is reported. */
  function TokenErrors(at: Coord, toks: seq<Token>): seq<Error>
  {
    if |toks| == 0 then []
    else (if toks[0].kind == "ERROR" then [SyntaxError(at, toks[0].value)] else []) + TokenErrors(at, toks[1..])
  }

  function CountErrorTokens(toks: seq<Token>): nat
  {
    if |toks| == 0 then 0 else (if toks[0].kind == "ERROR" then 1 else 0) + CountErrorTokens(toks[1..])
  }

  /** `data2sfeel`: a glossary variable becomes its item; anything else is
      lexed and the kept tokens are joined by single spaces. */
  function DataToSfeel(ctx: Context, at: Coord, data: string): Translation
  {
    if Some(data) in ctx.glossary then Translation(ctx.glossary[Some(data)].item, [])
    else
      var toks := ctx.lex(data);
      Translation(Accumulate("", " ", KeptTexts(ctx.items, toks)), TokenErrors(at, toks))
  }

  /** The texts of a comma separated list, each part stripped and
      translated. */
  function PartTexts(ctx: Context, at: Coord, parts: seq<string>): (ts: seq<string>)
    ensures |ts| == |parts|
    ensures forall k :: 0 <= k < |parts| ==> ts[k] == DataToSfeel(ctx, at, Strip(parts[k])).text
  {
    seq(|parts|, k requires 0 <= k < |parts| => DataToSfeel(ctx, at, Strip(parts[k])).text)
  }

  function PartErrors(ctx: Context, at: Coord, parts: seq<string>): seq<Error>
  {
    if |parts| == 0 then [] else DataToSfeel(ctx, at, Strip(parts[0])).errors + PartErrors(ctx, at, parts[1..])
  }

  /** A list translated part by part and joined again by commas. */
  function TranslateList(ctx: Context, at: Coord, s: string): Translation
  {
    var parts := Split(s, ",");
    Translation(Join(",", PartTexts(ctx, at, parts)), PartErrors(ctx, at, parts))
  }

  // ---------------------------------------------------------------------
  // test2sfeel

  /** The one-argument functions that stand for a whole test. */
  function FixedForm(variable: string, t: string): Option<string>
  {
    if t == "not()" then Some("not(" + variable + ")")
    else if t == "odd()" then Some("odd(" + variable + ")")
    else if t == "even()" then Some("even(" + variable + ")")
    else if t == "upper case()" then Some(variable + " = upper case(" + variable + ")")
    else if t == "lower case()" then Some(variable + " = lower case(" + variable + ")")
    else if t == "flatten()" then Some(variable + " = flatten(" + variable + ")")
    else None
  }

  /** `t` is `pre ... )`, as tested by `startswith(pre) and endswith(')')`. */
  predicate Parenthesised(t: string, pre: string)
  {
    StartsWith(t, pre) && EndsWith(t, ")")
  }

  /** Removes a leading `not ` or an enclosing `not(...)`. */
  function StripNot(t: string): (bool, string)
  {
    if StartsWith(t, "not ") then (true, Strip(t[4..]))
    else if Parenthesised(t, "not(") && |t| >= 5 then (true, Strip(t[4..|t| - 1]))
    else (false, t)
  }

  /** Removes a leading `in ` or an enclosing `in(...)`. */
  function StripIn(t: string): (bool, string)
  {
    if StartsWith(t, "in ") then (true, Strip(t[3..]))
    else if Parenthesised(t, "in(") && |t| >= 4 then (true, Strip(t[3..|t| - 1]))
    else (false, t)
  }

  /** `test2sfeel(variable, coordinate, test)`. */
  function TestToSfeel(ctx: Context, variable: string, at: Coord, test: string): Translation
  {
    var t := Strip(test);
    match FixedForm(variable, t)
    case Some(f) => Translation(f, [])
    case None =>
      if Contains(t, variable) then DataToSfeel(ctx, at, t)
      else if StartsWith(t, "not ") && Strip(t[4..]) == "null" then Translation(variable + " != null", [])
      else
        var (isNot, t1) := StripNot(t);
        var (isIn, t2) := StripIn(t1);
        Unwrapped(ctx, variable, at, test, isNot, isIn, t2)
  }

  /** The test after its `not` and `in` wrappers are removed. */
  function Unwrapped(ctx: Context, variable: string, at: Coord, test: string,
                     isNot: bool, isIn: bool, t: string): Translation
  {
    var inBits := Split(t, " in ");
    if |inBits| == 2 then
      var b1 := DataToSfeel(ctx, at, inBits[0]);
      var b2 := DataToSfeel(ctx, at, inBits[1]);
      Translation(if isNot then "not(" + b1.text + " in(" + b2.text + "))" else b1.text + " in(" + b2.text + ")",
                  b1.errors + b2.errors)
    else if |t| == 0 then Translation("null", [BadSfeel(test, at)])
    else if StartsWith(t, "\"") && EndsWith(t, "\"") then
      if |t| == 1 then Translation("null", [BadSfeel(test, at)])
      else if isNot then Translation(if isIn then "not(in(" + t + "))" else "not(" + t + ")", [])
      else Translation(if isIn then "in(" + t + ")" else t, [])
    else if t[0] !in "[(" || t[|t| - 1] !in "])" then SimpleTest(ctx, variable, at, isNot, isIn, t)
    else BracketTest(ctx, variable, at, isNot, isIn, t)
  }

  /** A leading relational operator and the rest of the text. */
  function RelOp(t: string): (string, string)
  {
    if |t| >= 2 && t[..2] in ["<=", ">=", "!="] then (t[..2], t[2..])
    else if |t| >= 1 && t[..1] in ["<", ">", "="] then (t[..1], t[1..])
    else ("", t)
  }

  /** The expression built for a simple (unbracketed, comma-free) test. */
  function SimpleText(v: string, isNot: bool, isIn: bool, inIs: bool, op: string, e: string): string
  {
    if isNot then
      if isIn then (if op != "" then v + " not(in(" + op + " " + e + "))" else v + " not(in(" + e + "))")
      else if inIs then e + " not(in(" + v + "))"
      else if op != "" then v + " not " + op + " " + e
      else v + " not " + e
    else
      if isIn then (if op != "" then v + " in(" + op + " " + e + ")" else v + " in(" + e + ")")
      else if inIs then e + " in " + v
      else if op != "" then v + " " + op + " " + e
      else v + " = " + e
  }

  /** An unbracketed test: a simple expression or a comma separated list.
      A trailing ` not` is removed; the source records it in a flag it never
      reads, so it has no effect on the result. */
  function SimpleTest(ctx: Context, v: string, at: Coord, isNot: bool, isIn: bool, t: string): Translation
  {
    var inIs := EndsWith(t, " in");
    var t3 := if inIs then Strip(t[..|t| - 3]) else t;
    var t4 := if EndsWith(t3, " not") then Strip(t3[..|t3| - 4]) else t3;
    if Find(t4, ",") == -1 then
      var (op, rest) := if inIs then ("", t4) else RelOp(t4);
      var d := DataToSfeel(ctx, at, rest);
      Translation(SimpleText(v, isNot, isIn, inIs, op, d.text), d.errors)
    else
      var l := TranslateList(ctx, at, t4);
      Translation(if isNot then v + " not in(" + l.text + ")" else v + " in(" + l.text + ")", l.errors)
  }

  /** A bracketed test: a `..` range, a `[...]` list or a parenthesised
      expression. */
  function BracketTest(ctx: Context, v: string, at: Coord, isNot: bool, isIn: bool, t: string): Translation
    requires |t| >= 2
  {
    var open := t[0];
    var close := t[|t| - 1];
    var inner := t[1..|t| - 1];
    if Find(inner, "..") == -1 then
      var body := if open != '[' || close != ']' then DataToSfeel(ctx, at, inner) else TranslateList(ctx, at, inner);
      var w := [open] + body.text + [close];
      Translation(if isNot then (if isIn then v + " not(in(" + w + "))" else v + " not(" + w + ")")
                  else (if isIn then v + " in(" + w + ")" else v + " = " + w),
                  body.errors)
    else
      var parts := Split(inner, "..");
      if |parts| != 2 then Translation(v + " = \"" + inner + "\"", [InvalidRange(at)])
      else
        var a := DataToSfeel(ctx, at, Strip(parts[0]));
        var b := DataToSfeel(ctx, at, Strip(parts[1]));
        var r := [open] + a.text + " .. " + b.text + [close];
        Translation(if isNot then (if isIn then v + " not in(" + r + ")" else v + " not in " + r)
                    else (if isIn then v + " in(" + r + ")" else v + " in " + r),
                    a.errors + b.errors)
  }

  // ---------------------------------------------------------------------
  // Properties of data2sfeel

  /** Every kept token is either an error (reported) or written back. */
  lemma {:induction false} TokensAccountedFor(items: map<string, Cell>, at: Coord, toks: seq<Token>)
    ensures |TokenErrors(at, toks)| == CountErrorTokens(toks)
    ensures |KeptTexts(items, toks)| + CountErrorTokens(toks) == |toks|
    ensures forall k :: 0 <= k < |TokenErrors(at, toks)| ==>
              TokenErrors(at, toks)[k].SyntaxError? && TokenErrors(at, toks)[k].at == at
  {
    if |toks| > 0 {
      TokensAccountedFor(items, at, toks[1..]);
    }
  }

  /** A token with text is written back with text. */
  lemma {:induction false} KeptTextsNonEmpty(items: map<string, Cell>, toks: seq<Token>)
    requires forall k :: 0 <= k < |toks| ==> toks[k].value != ""
    ensures forall k :: 0 <= k < |KeptTexts(items, toks)| ==> KeptTexts(items, toks)[k] != ""
  {
    if |toks| > 0 {
      KeptTextsNonEmpty(items, toks[1..]);
    }
  }

  /** A glossary variable is replaced by its item, with no error. */
  lemma VariableTranslation(ctx: Context, at: Coord, data: string)
    requires Some(data) in ctx.glossary
    ensures DataToSfeel(ctx, at, data) == Translation(ctx.glossary[Some(data)].item, [])
  {
  }

  /** Any other text becomes its non-error tokens joined by single spaces,
      with one syntax error per error token, provided the lexer produces
      no empty tokens. */
  lemma DataTranslation(ctx: Context, at: Coord, data: string)
    requires Some(data) !in ctx.glossary
    requires forall k :: 0 <= k < |ctx.lex(data)| ==> ctx.lex(data)[k].value != ""
    ensures DataToSfeel(ctx, at, data).text == Join(" ", KeptTexts(ctx.items, ctx.lex(data)))
    ensures |DataToSfeel(ctx, at, data).errors| == CountErrorTokens(ctx.lex(data))
    ensures forall e :: e in DataToSfeel(ctx, at, data).errors ==> e.SyntaxError? && e.at == at
  {
    var toks := ctx.lex(data);
    KeptTextsNonEmpty(ctx.items, toks);
    AccumulateIsJoin("", " ", KeptTexts(ctx.items, toks));
    TokensAccountedFor(ctx.items, at, toks);
  }

  // ---------------------------------------------------------------------
  // Properties of test2sfeel

  lemma SplitWithoutSeparator(s: string, sep: string)
    requires |sep| > 0 && !Contains(s, sep)
    ensures Split(s, sep) == [s]
  {
  }

  lemma StartsWithHead(s: string, p: string)
    requires StartsWith(s, p) && |p| > 0
    ensures s[0] == p[0]
  {
    assert s[..|p|][0] == s[0];
  }

  lemma EndsWithLast(s: string, p: string)
    requires EndsWith(s, p) && |p| > 0
    ensures s[|s| - 1] == p[|p| - 1]
  {
    assert s[|s| - |p|..][|p| - 1] == s[|s| - 1];
  }

  /** A text that opens with a character other than `n` and `i` carries no
      `not` or `in` wrapper. */
  lemma NoWrappers(t: string)
    requires |t| > 0 && t[0] != 'n' && t[0] != 'i'
    ensures StripNot(t) == (false, t) && StripIn(t) == (false, t)
    ensures !StartsWith(t, "not ")
  {
    if StartsWith(t, "not ") { StartsWithHead(t, "not "); }
    if StartsWith(t, "not(") { StartsWithHead(t, "not("); }
    NoInWrapper(t);
  }

  lemma NoInWrapper(t: string)
    requires |t| > 0 && t[0] != 'i'
    ensures StripIn(t) == (false, t)
  {
    if StartsWith(t, "in ") { StartsWithHead(t, "in "); }
    if StartsWith(t, "in(") { StartsWithHead(t, "in("); }
  }

  /** Only the six fixed texts are fixed forms. */
  lemma NoFixedForm(v: string, t: string)
    requires |t| > 0 && t[0] !in "noeulf"
    ensures FixedForm(v, t) == None
  {
  }

  lemma NotPrefixNoFixedForm(v: string, t: string)
    requires StartsWith(t, "not ")
    ensures FixedForm(v, t) == None
  {
    assert t[3] == ' ' by { assert t[..4][3] == t[3]; }
  }

  /** A test that mentions the variable is taken as a whole expression;
      otherwise `not null` compares the variable with null. Both come
      before the wrappers are removed. */
  lemma WholeTests(ctx: Context, v: string, at: Coord, test: string)
    requires FixedForm(v, Strip(test)) == None
    ensures Contains(Strip(test), v) ==> TestToSfeel(ctx, v, at, test) == DataToSfeel(ctx, at, Strip(test))
    ensures !Contains(Strip(test), v) && StartsWith(Strip(test), "not ") && Strip(Strip(test)[4..]) == "null" ==>
              TestToSfeel(ctx, v, at, test) == Translation(v + " != null", [])
  {
  }

  /** The stages of `test2sfeel`, one lemma each. */
  lemma ToUnwrapped(ctx: Context, v: string, at: Coord, test: string)
    requires FixedForm(v, Strip(test)) == None && !Contains(Strip(test), v)
    requires !(StartsWith(Strip(test), "not ") && Strip(Strip(test)[4..]) == "null")
    ensures var (isNot, t1) := StripNot(Strip(test));
            var (isIn, t2) := StripIn(t1);
            TestToSfeel(ctx, v, at, test) == Unwrapped(ctx, v, at, test, isNot, isIn, t2)
  {
  }

  /** The texts that reach the unbracketed branch: not empty, not a quoted
      string and not enclosed in brackets. */
  predicate Unbracketed(t: string)
  {
    |t| > 0 && !(StartsWith(t, "\"") && EndsWith(t, "\"")) && (t[0] !in "[(" || t[|t| - 1] !in "])")
  }

  /** A text that opens with neither a quote nor a bracket is unbracketed. */
  lemma UnbracketedByHead(t: string)
    requires |t| > 0 && t[0] !in "\"[("
    ensures Unbracketed(t)
  {
    if StartsWith(t, "\"") { StartsWithHead(t, "\""); }
  }

  lemma ToSimple(ctx: Context, v: string, at: Coord, test: string, isNot: bool, isIn: bool, t: string)
    requires !Contains(t, " in ") && Unbracketed(t)
    ensures Unwrapped(ctx, v, at, test, isNot, isIn, t) == SimpleTest(ctx, v, at, isNot, isIn, t)
  {
    SplitWithoutSeparator(t, " in ");
  }

  lemma ToBracket(ctx: Context, v: string, at: Coord, test: string, isNot: bool, isIn: bool, t: string)
    requires !Contains(t, " in ") && |t| >= 2 && t[0] in "[(" && t[|t| - 1] in "])"
    ensures Unwrapped(ctx, v, at, test, isNot, isIn, t) == BracketTest(ctx, v, at, isNot, isIn, t)
  {
    SplitWithoutSeparator(t, " in ");
    if StartsWith(t, "\"") { StartsWithHead(t, "\""); }
  }

  lemma SimpleExpression(ctx: Context, v: string, at: Coord, isNot: bool, isIn: bool, t: string)
    requires !EndsWith(t, " in") && !EndsWith(t, " not") && !Contains(t, ",")
    ensures var (op, rest) := RelOp(t);
            var d := DataToSfeel(ctx, at, rest);
            SimpleTest(ctx, v, at, isNot, isIn, t) == Translation(SimpleText(v, isNot, isIn, false, op, d.text), d.errors)
  {
  }

  lemma SimpleList(ctx: Context, v: string, at: Coord, isNot: bool, isIn: bool, t: string)
    requires !EndsWith(t, " in") && !EndsWith(t, " not") && Contains(t, ",")
    ensures var l := TranslateList(ctx, at, t);
            SimpleTest(ctx, v, at, isNot, isIn, t)
              == Translation(if isNot then v + " not in(" + l.text + ")" else v + " in(" + l.text + ")", l.errors)
  {
  }

  /** The longest relational operator at the head of a text is taken. */
  lemma RelOpOf(op: string, e: string)
    requires op in ["<=", ">=", "!=", "<", ">", "="]
    requires op in ["<", ">"] ==> !StartsWith(e, "=")
    ensures RelOp(op + e) == (op, e)
  {
    var t := op + e;
    assert t[..|op|] == op && t[|op|..] == e;
    if |op| == 1 && |t| >= 2 {
      assert t[..2] == [op[0], e[0]];
      if op in ["<", ">"] {
        assert e[0] != '=' by { assert e[..1] == [e[0]]; }
      }
    }
  }

  lemma NoRelOp(t: string)
    requires |t| > 0 && t[0] !in "<>=!"
    ensures RelOp(t) == ("", t)
  {
    assert t[..1] == [t[0]];
    if |t| >= 2 { assert t[..2] == [t[0], t[1]]; }
  }

  /** A `not ` prefix is removed, and what follows it is not an `in`
      wrapper when it opens with another letter than `i`. */
  lemma NotPrefix(t: string)
    requires StartsWith(t, "not ")
    requires |Strip(t[4..])| > 0 && Strip(t[4..])[0] != 'i'
    ensures StripNot(t) == (true, Strip(t[4..]))
    ensures StripIn(Strip(t[4..])) == (false, Strip(t[4..]))
  {
    NoInWrapper(Strip(t[4..]));
  }

  /** The one-argument functions expand as fixed texts. */
  lemma FixedForms(ctx: Context, v: string, at: Coord, test: string)
    ensures Strip(test) == "not()" ==> TestToSfeel(ctx, v, at, test) == Translation("not(" + v + ")", [])
    ensures Strip(test) == "odd()" ==> TestToSfeel(ctx, v, at, test) == Translation("odd(" + v + ")", [])
    ensures Strip(test) == "even()" ==> TestToSfeel(ctx, v, at, test) == Translation("even(" + v + ")", [])
    ensures Strip(test) == "upper case()" ==>
              TestToSfeel(ctx, v, at, test) == Translation(v + " = upper case(" + v + ")", [])
    ensures Strip(test) == "lower case()" ==>
              TestToSfeel(ctx, v, at, test) == Translation(v + " = lower case(" + v + ")", [])
    ensures Strip(test) == "flatten()" ==>
              TestToSfeel(ctx, v, at, test) == Translation(v + " = flatten(" + v + ")", [])
  {
  }

  /** A test with nothing left once its `not` and `in` wrappers are gone,
      or only a lone double quote, is reported once as bad S-FEEL and
      becomes `null`. */
  lemma BadTests(ctx: Context, v: string, at: Coord, test: string)
    requires FixedForm(v, Strip(test)) == None && !Contains(Strip(test), v)
    requires !(StartsWith(Strip(test), "not ") && Strip(Strip(test)[4..]) == "null")
    requires StripIn(StripNot(Strip(test)).1).1 in ["", "\""]
    ensures TestToSfeel(ctx, v, at, test) == Translation("null", [BadSfeel(test, at)])
  {
    ToUnwrapped(ctx, v, at, test);
    SplitWithoutSeparator(StripIn(StripNot(Strip(test)).1).1, " in ");
  }

  /** The conditions under which an unbracketed test is read as a single
      expression. */
  predicate Simple(v: string, t: string)
  {
    !Contains(t, v) && !Contains(t, " in ") && !Contains(t, ",") && !EndsWith(t, " in") && !EndsWith(t, " not")
  }

  /** A test that opens with a relational operator compares the variable. */
  lemma Comparison(ctx: Context, v: string, at: Coord, test: string, op: string, e: string)
    requires op in ["<=", ">=", "!=", "<", ">", "="]
    requires op in ["<", ">"] ==> !StartsWith(e, "=")
    requires Strip(test) == op + e && Simple(v, op + e)
    ensures var d := DataToSfeel(ctx, at, e);
            TestToSfeel(ctx, v, at, test) == Translation(v + " " + op + " " + d.text, d.errors)
  {
    var t := op + e;
    assert t[0] == op[0];
    NoFixedForm(v, t);
    NoWrappers(t);
    ToUnwrapped(ctx, v, at, test);
    assert TestToSfeel(ctx, v, at, test) == Unwrapped(ctx, v, at, test, false, false, t);
    UnbracketedByHead(t);
    ToSimple(ctx, v, at, test, false, false, t);
    SimpleExpression(ctx, v, at, false, false, t);
    RelOpOf(op, e);
    var d := DataToSfeel(ctx, at, e);
    assert SimpleTest(ctx, v, at, false, false, t) == Translation(SimpleText(v, false, false, false, op, d.text), d.errors);
  }

  /** `not` before a relational test negates the comparison. */
  lemma NegatedComparison(ctx: Context, v: string, at: Coord, test: string, op: string, e: string)
    requires op in ["<=", ">=", "!=", "<", ">", "="]
    requires op in ["<", ">"] ==> !StartsWith(e, "=")
    requires StartsWith(Strip(test), "not ") && Strip(Strip(test)[4..]) == op + e
    requires !Contains(Strip(test), v) && Simple(v, op + e)
    ensures var d := DataToSfeel(ctx, at, e);
            TestToSfeel(ctx, v, at, test) == Translation(v + " not " + op + " " + d.text, d.errors)
  {
    var t := Strip(test);
    var t1 := op + e;
    assert t1[0] == op[0];
    NotPrefixNoFixedForm(v, t);
    assert t1 != "null";
    NotPrefix(t);
    ToUnwrapped(ctx, v, at, test);
    UnbracketedByHead(t1);
    ToSimple(ctx, v, at, test, true, false, t1);
    SimpleExpression(ctx, v, at, true, false, t1);
    RelOpOf(op, e);
  }

  /** A test with no fixed form, wrapper or operator that reaches the
      unbracketed branch compares the variable for equality with the
      translated text. */
  lemma Equality(ctx: Context, v: string, at: Coord, test: string)
    requires var t := Strip(test);
             Unbracketed(t) && Simple(v, t) && FixedForm(v, t) == None
             && StripNot(t) == (false, t) && StripIn(t) == (false, t) && RelOp(t) == ("", t)
    ensures var d := DataToSfeel(ctx, at, Strip(test));
            TestToSfeel(ctx, v, at, test) == Translation(v + " = " + d.text, d.errors)
  {
    var t := Strip(test);
    ToUnwrapped(ctx, v, at, test);
    ToSimple(ctx, v, at, test, false, false, t);
    SimpleExpression(ctx, v, at, false, false, t);
  }

  /** `not ` before such a test gives `v not e`. */
  lemma NegatedEquality(ctx: Context, v: string, at: Coord, test: string, e: string)
    requires StartsWith(Strip(test), "not ") && Strip(Strip(test)[4..]) == e
    requires e != "null" && !Contains(Strip(test), v) && Simple(v, e) && Unbracketed(e)
    requires StripIn(e) == (false, e) && RelOp(e) == ("", e)
    ensures var d := DataToSfeel(ctx, at, e);
            TestToSfeel(ctx, v, at, test) == Translation(v + " not " + d.text, d.errors)
  {
    var t := Strip(test);
    NotPrefixNoFixedForm(v, t);
    assert StripNot(t) == (true, e);
    ToUnwrapped(ctx, v, at, test);
    ToSimple(ctx, v, at, test, true, false, e);
    SimpleExpression(ctx, v, at, true, false, e);
  }

  /** The conditions under which an unbracketed test holding a comma is read
      as a list of values. */
  predicate CommaList(t: string)
  {
    Contains(t, ",") && !Contains(t, " in ") && !EndsWith(t, " in") && !EndsWith(t, " not") && Unbracketed(t)
  }

  /** An unbracketed comma list with no wrapper is a membership test. */
  lemma ListMembership(ctx: Context, v: string, at: Coord, test: string)
    requires var t := Strip(test);
             CommaList(t) && FixedForm(v, t) == None && !Contains(t, v)
             && StripNot(t) == (false, t) && StripIn(t) == (false, t)
    ensures var l := TranslateList(ctx, at, Strip(test));
            TestToSfeel(ctx, v, at, test) == Translation(v + " in(" + l.text + ")", l.errors)
  {
    var t := Strip(test);
    ToUnwrapped(ctx, v, at, test);
    ToSimple(ctx, v, at, test, false, false, t);
    SimpleList(ctx, v, at, false, false, t);
  }

  /** `not ` or `not(...)` around an unbracketed comma list excludes its
      values. */
  lemma NegatedListMembership(ctx: Context, v: string, at: Coord, test: string, body: string)
    requires var t := Strip(test);
             StripNot(t) == (true, body) && StripIn(body) == (false, body) && CommaList(body)
             && FixedForm(v, t) == None && !Contains(t, v)
    ensures var l := TranslateList(ctx, at, body);
            TestToSfeel(ctx, v, at, test) == Translation(v + " not in(" + l.text + ")", l.errors)
  {
    var t := Strip(test);
    ToUnwrapped(ctx, v, at, test);
    ToSimple(ctx, v, at, test, true, false, body);
    SimpleList(ctx, v, at, true, false, body);
  }

  /** As written, a trailing ` not` is removed and has no effect: the
      translation is that of the text without it. */
  lemma TrailingNotIgnored(ctx: Context, v: string, at: Coord, isNot: bool, isIn: bool, t: string)
    requires EndsWith(t, " not") && !EndsWith(t, " in")
    requires var u := Strip(t[..|t| - 4]); !EndsWith(u, " in") && !EndsWith(u, " not")
    ensures SimpleTest(ctx, v, at, isNot, isIn, t) == SimpleTest(ctx, v, at, isNot, isIn, Strip(t[..|t| - 4]))
  {
  }

  /** A double-quoted string with no wrappers is already S-FEEL. */
  lemma QuotedString(ctx: Context, v: string, at: Coord, test: string)
    requires |Strip(test)| >= 2 && StartsWith(Strip(test), "\"") && EndsWith(Strip(test), "\"")
    requires !Contains(Strip(test), v) && !Contains(Strip(test), " in ")
    ensures TestToSfeel(ctx, v, at, test) == Translation(Strip(test), [])
  {
    var t := Strip(test);
    StartsWithHead(t, "\"");
    NoFixedForm(v, t);
    NoWrappers(t);
    ToUnwrapped(ctx, v, at, test);
    SplitWithoutSeparator(t, " in ");
  }

  /** The conditions under which a test is read as a bracketed group. */
  predicate Bracketed(v: string, t: string)
  {
    |t| >= 2 && t[0] in "[(" && t[|t| - 1] in "])" && !Contains(t, v) && !Contains(t, " in ")
  }

  /** The text between the brackets of a bracketed test. */
  function Inner(t: string): (r: string)
    requires |t| >= 2
    ensures [t[0]] + r + [t[|t| - 1]] == t
  {
    t[1..|t| - 1]
  }

  lemma ToBracketTest(ctx: Context, v: string, at: Coord, test: string)
    requires Bracketed(v, Strip(test))
    ensures TestToSfeel(ctx, v, at, test) == BracketTest(ctx, v, at, false, false, Strip(test))
  {
    var t := Strip(test);
    NoFixedForm(v, t);
    NoWrappers(t);
    ToUnwrapped(ctx, v, at, test);
    ToBracket(ctx, v, at, test, false, false, t);
  }

  /** A bracketed `a..b` is a range test that keeps its bracket characters,
      so open and closed ends are preserved. */
  lemma Range(ctx: Context, v: string, at: Coord, test: string)
    requires Bracketed(v, Strip(test)) && |Split(Inner(Strip(test)), "..")| == 2
    ensures var t := Strip(test);
            var parts := Split(Inner(t), "..");
            var a := DataToSfeel(ctx, at, Strip(parts[0]));
            var b := DataToSfeel(ctx, at, Strip(parts[1]));
            TestToSfeel(ctx, v, at, test)
              == Translation(v + " in " + [t[0]] + a.text + " .. " + b.text + [t[|t| - 1]], a.errors + b.errors)
  {
    ToBracketTest(ctx, v, at, test);
    RangeBracket(ctx, v, at, Strip(test));
  }

  lemma RangeBracket(ctx: Context, v: string, at: Coord, t: string)
    requires |t| >= 2 && |Split(Inner(t), "..")| == 2
    ensures var parts := Split(Inner(t), "..");
            var a := DataToSfeel(ctx, at, Strip(parts[0]));
            var b := DataToSfeel(ctx, at, Strip(parts[1]));
            BracketTest(ctx, v, at, false, false, t)
              == Translation(v + " in " + [t[0]] + a.text + " .. " + b.text + [t[|t| - 1]], a.errors + b.errors)
  {
    RangeNeedsDots(Inner(t));
    var parts := Split(Inner(t), "..");
    var a := DataToSfeel(ctx, at, Strip(parts[0]));
    var b := DataToSfeel(ctx, at, Strip(parts[1]));
    assert v + " in " + ([t[0]] + a.text + " .. " + b.text + [t[|t| - 1]])
        == v + " in " + [t[0]] + a.text + " .. " + b.text + [t[|t| - 1]];
  }

  /** A bracketed text with `..` that does not split into exactly two parts
      is reported as an invalid range and compared as a string. */
  lemma InvalidRangeTest(ctx: Context, v: string, at: Coord, test: string)
    requires Bracketed(v, Strip(test)) && Contains(Inner(Strip(test)), "..")
    requires |Split(Inner(Strip(test)), "..")| != 2
    ensures TestToSfeel(ctx, v, at, test)
              == Translation(v + " = \"" + Inner(Strip(test)) + "\"", [InvalidRange(at)])
  {
    ToBracketTest(ctx, v, at, test);
  }

  /** A `[...]` list without `..` is an equality with a list of translated
      values. */
  lemma BracketList(ctx: Context, v: string, at: Coord, test: string)
    requires Bracketed(v, Strip(test)) && !Contains(Inner(Strip(test)), "..")
    requires Strip(test)[0] == '[' && Strip(test)[|Strip(test)| - 1] == ']'
    ensures var l := TranslateList(ctx, at, Inner(Strip(test)));
            TestToSfeel(ctx, v, at, test) == Translation(v + " = [" + l.text + "]", l.errors)
  {
    ToBracketTest(ctx, v, at, test);
  }

  /** A range always has a `..` in it: a text without one splits into a
      single part. */
  lemma RangeNeedsDots(s: string)
    requires |Split(s, "..")| == 2
    ensures Contains(s, "..")
  {
  }
}
