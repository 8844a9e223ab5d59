/** The S-FEEL literal serialiser of the DMN engine (`value2sfeel`,
    `list2sfeel`, `dict2sfeel`): how a Python value handed to a decision is
    written as S-FEEL text before it is assigned to a glossary item. */
module ValueSfeel {
  import opened Common

  /** The outcome of serialising a value: S-FEEL text; `None`, returned
      after an "Invalid Data" error for a value of an unsupported type; or a
      Python exception, which is what happens when an unsupported value
      sits inside a list or dictionary (the serialiser then concatenates
      `None` to a string, a TypeError). */
  datatype Sfeel = Text(text: string) | NoValue | Raised

  // ---------------------------------------------------------------------
  // Integers: Python's str(int)

  function DigitChar(d: nat): char
    requires d < 10
  {
    (d + '0' as int) as char
  }

  function NatToDecimal(n: nat): string
    decreases n
  {
    if n < 10 then [DigitChar(n)] else NatToDecimal(n / 10) + [DigitChar(n % 10)]
  }

  function IntToDecimal(i: int): string
  {
    if i < 0 then "-" + NatToDecimal(-i) else NatToDecimal(i)
  }

  /** A reader for decimal text, independent of the writer above. */
  predicate IsDigit(c: char)
  {
    '0' <= c <= '9'
  }

  function DigitValue(c: char): nat
  {
    if IsDigit(c) then c as int - '0' as int else 0
  }

  function ReadNat(s: string): nat
  {
    if |s| == 0 then 0 else ReadNat(s[..|s| - 1]) * 10 + DigitValue(s[|s| - 1])
  }

  function ReadInt(s: string): int
  {
    if |s| > 0 && s[0] == '-' then 0 - ReadNat(s[1..]) else ReadNat(s)
  }

  /** Canonical decimal digits: at least one digit, no leading zero. */
  predicate CanonicalDigits(s: string)
  {
    |s| > 0 && (forall k :: 0 <= k < |s| ==> IsDigit(s[k])) && (s[0] == '0' ==> |s| == 1)
  }

  lemma {:induction false} NatDecimalRoundTrip(n: nat)
    ensures CanonicalDigits(NatToDecimal(n))
    ensures ReadNat(NatToDecimal(n)) == n
    decreases n
  {
    var s := NatToDecimal(n);
    if n >= 10 {
      NatDecimalRoundTrip(n / 10);
      var p := NatToDecimal(n / 10);
      assert s[..|s| - 1] == p;
      assert ReadNat("0") == 0;
      assert p != "0";
      assert s[0] == p[0];
    }
  }

  // ---------------------------------------------------------------------
  // Strings: wrapped in double quotes, every `"` written as `\"`

  function EscapeQuotes(s: string): string
  {
    if |s| == 0 then "" else (if s[0] == '"' then "\\\"" else [s[0]]) + EscapeQuotes(s[1..])
  }

  /** Reads back an escaped string: `\"` stands for `"`, every other
      character for itself. */
  function UnescapeQuotes(s: string): string
  {
    if |s| == 0 then ""
    else if |s| >= 2 && s[0] == '\\' && s[1] == '"' then "\"" + UnescapeQuotes(s[2..])
    else [s[0]] + UnescapeQuotes(s[1..])
  }

  function CountQuotes(s: string): nat
  {
    if |s| == 0 then 0 else (if s[0] == '"' then 1 else 0) + CountQuotes(s[1..])
  }

  lemma {:induction false} EscapeQuotesFacts(s: string)
    ensures |EscapeQuotes(s)| == |s| + CountQuotes(s)
    ensures EscapeQuotes(s) != [] ==> EscapeQuotes(s)[0] != '"'
    ensures UnescapeQuotes(EscapeQuotes(s)) == s
  {
    if |s| > 0 {
      EscapeQuotesFacts(s[1..]);
      var rest := EscapeQuotes(s[1..]);
      if s[0] == '"' {
        assert EscapeQuotes(s) == "\\\"" + rest;
        assert (['\\', '"'] + rest)[2..] == rest;
      } else {
        assert EscapeQuotes(s) == [s[0]] + rest;
        assert ([s[0]] + rest)[1..] == rest;
      }
    }
  }

  // ---------------------------------------------------------------------
  // The serialiser

  /** Serialising an element of a list or a dictionary: an unsupported
      element (`None` from the serialiser) makes the concatenation raise. */
  function Lift(e: Sfeel): Sfeel
  {
    if e.NoValue? then Raised else e
  }

  predicate AllText(encs: seq<Sfeel>)
  {
    forall k :: 0 <= k < |encs| ==> encs[k].Text?
  }

  function Texts(encs: seq<Sfeel>): (ts: seq<string>)
    requires AllText(encs)
    ensures |ts| == |encs| && forall k :: 0 <= k < |encs| ==> ts[k] == encs[k].text
  {
    seq(|encs|, k requires 0 <= k < |encs| => encs[k].text)
  }

  /** `list2sfeel`/`dict2sfeel` after encoding the elements: the texts in
      the accumulator loop between the brackets, or the exception of the
      first element that raised. */
  function Bracketed(open: string, close: string, encs: seq<Sfeel>): Sfeel
  {
    if AllText(encs) then Text(Accumulate(open, ",", Texts(encs)) + close) else Raised
  }

  /** One more element written by the accumulator loop. */
  lemma AccumulateNext(open: string, encs: seq<Sfeel>, i: nat)
    requires i < |encs| && AllText(encs[..i]) && encs[i].Text?
    ensures AllText(encs[..i + 1])
    ensures var acc := Accumulate(open, ",", Texts(encs[..i]));
            Accumulate(open, ",", Texts(encs[..i + 1])) == (if acc != open then acc + "," else acc) + encs[i].text
  {
    assert AllText(encs[..i + 1]);
    assert Texts(encs[..i + 1])[..i] == Texts(encs[..i]);
  }

  function ListEncodings(glossary: map<Cell, Entry>, xs: seq<Value>): (encs: seq<Sfeel>)
    ensures |encs| == |xs|
    decreases List(xs), 0
  {
    seq(|xs|, k requires 0 <= k < |xs| => Lift(ValueToSfeel(glossary, xs[k])))
  }

  function DictEncodings(glossary: map<Cell, Entry>, es: seq<(string, Value)>): (encs: seq<Sfeel>)
    ensures |encs| == |es|
    decreases Dict(es), 0
  {
    seq(|es|, k requires 0 <= k < |es| => EntryEncoding(glossary, es[k].0, es[k].1))
  }

  /** One dictionary entry: the quoted key, a colon and the value's text. */
  function EntryEncoding(glossary: map<Cell, Entry>, key: string, value: Value): Sfeel
    decreases value, 2
  {
    match Lift(ValueToSfeel(glossary, value))
    case Text(t) => Text("\"" + key + "\":" + t)
    case other => other
  }

  /** `value2sfeel`: a string that is a glossary variable is written as it
      is (it names the variable); every other string is quoted. */
  function ValueToSfeel(glossary: map<Cell, Entry>, v: Value): Sfeel
    decreases v, 1
  {
    match v
    case Null => Text("null")
    case Bool(b) => Text(if b then "true" else "false")
    case Int(i) => Text(IntToDecimal(i))
    case Str(s) => if Some(s) in glossary then Text(s) else Text("\"" + EscapeQuotes(s) + "\"")
    case List(xs) => Bracketed("[", "]", ListEncodings(glossary, xs))
    case Dict(es) => Bracketed("{", "}", DictEncodings(glossary, es))
    case Unsupported => NoValue
  }

  /** An unsupported value occurs somewhere inside `v`. */
  predicate HasUnsupported(v: Value)
  {
    match v
    case Unsupported => true
    case List(xs) => exists k :: 0 <= k < |xs| && HasUnsupported(xs[k])
    case Dict(es) => exists k :: 0 <= k < |es| && HasUnsupported(es[k].1)
    case _ => false
  }

  // ---------------------------------------------------------------------
  // Properties

  /** Scalars: `None`, the booleans (tested before the integers) and the
      integers, which read back to themselves in canonical decimal form. */
  lemma ScalarEncodings(glossary: map<Cell, Entry>, i: int)
    ensures ValueToSfeel(glossary, Null) == Text("null")
    ensures ValueToSfeel(glossary, Bool(true)) == Text("true")
    ensures ValueToSfeel(glossary, Bool(false)) == Text("false")
    ensures ValueToSfeel(glossary, Int(i)).Text?
    ensures var t := ValueToSfeel(glossary, Int(i)).text;
      ReadInt(t) == i && (i >= 0 ==> CanonicalDigits(t))
      && (i < 0 ==> t[0] == '-' && CanonicalDigits(t[1..]))
  {
    NatDecimalRoundTrip(if i < 0 then -i else i);
    var t := ValueToSfeel(glossary, Int(i)).text;
    if i < 0 {
      assert t[1..] == NatToDecimal(-i);
    } else {
      assert t == NatToDecimal(i);
      assert t[0] != '-';
    }
  }

  /** Strings: a glossary variable is returned unchanged; any other string
      is quoted, its length grows by two plus its number of quotes, and
      reading the escapes back gives the original string. */
  lemma StringEncoding(glossary: map<Cell, Entry>, s: string)
    ensures Some(s) in glossary ==> ValueToSfeel(glossary, Str(s)) == Text(s)
    ensures Some(s) !in glossary ==>
      && ValueToSfeel(glossary, Str(s)).Text?
      && var t := ValueToSfeel(glossary, Str(s)).text;
      && |t| == |s| + 2 + CountQuotes(s)
      && t[0] == '"' && t[|t| - 1] == '"'
      && UnescapeQuotes(t[1..|t| - 1]) == s
  {
    EscapeQuotesFacts(s);
    if Some(s) !in glossary {
      var t := ValueToSfeel(glossary, Str(s)).text;
      assert t[1..|t| - 1] == EscapeQuotes(s);
    }
  }

  /** Lists: `[`, the element texts joined by `,`, `]`, as long as the first
      element does not serialise to the empty text (only a glossary variable
      named by the empty string does); the empty list gives `[]`. */
  lemma {:induction false} ListEncoding(glossary: map<Cell, Entry>, xs: seq<Value>)
    requires forall k :: 0 <= k < |xs| ==> ValueToSfeel(glossary, xs[k]).Text?
    requires |xs| > 0 ==> ValueToSfeel(glossary, xs[0]) != Text("")
    ensures ValueToSfeel(glossary, List(xs)) ==
      Text("[" + Join(",", seq(|xs|, k requires 0 <= k < |xs| => ValueToSfeel(glossary, xs[k]).text)) + "]")
  {
    var encs := ListEncodings(glossary, xs);
    assert AllText(encs);
    var ts := Texts(encs);
    assert ts == seq(|xs|, k requires 0 <= k < |xs| => ValueToSfeel(glossary, xs[k]).text);
    AccumulateIsJoin("[", ",", ts);
  }

  /** Dictionaries: `{"k1":v1,"k2":v2}` with the keys in insertion order. */
  lemma {:induction false} DictEncoding(glossary: map<Cell, Entry>, es: seq<(string, Value)>)
    requires forall k :: 0 <= k < |es| ==> ValueToSfeel(glossary, es[k].1).Text?
    ensures ValueToSfeel(glossary, Dict(es)) ==
      Text("{" + Join(",", seq(|es|, k requires 0 <= k < |es| =>
        "\"" + es[k].0 + "\":" + ValueToSfeel(glossary, es[k].1).text)) + "}")
  {
    var encs := DictEncodings(glossary, es);
    forall k | 0 <= k < |es|
      ensures encs[k] == Text("\"" + es[k].0 + "\":" + ValueToSfeel(glossary, es[k].1).text)
    {
      assert encs[k] == EntryEncoding(glossary, es[k].0, es[k].1);
    }
    assert AllText(encs);
    var ts := Texts(encs);
    assert ts == seq(|es|, k requires 0 <= k < |es| =>
      "\"" + es[k].0 + "\":" + ValueToSfeel(glossary, es[k].1).text);
    AccumulateIsJoin("{", ",", ts);
  }

  /** The serialiser gives text exactly when no unsupported value occurs
      inside the value, returns `None` exactly for an unsupported value at
      the top, and raises otherwise. */
  lemma {:induction false} EncodingSucceeds(glossary: map<Cell, Entry>, v: Value)
    ensures ValueToSfeel(glossary, v).Text? <==> !HasUnsupported(v)
    ensures ValueToSfeel(glossary, v).NoValue? <==> v == Unsupported
    decreases v
  {
    match v
    case List(xs) =>
      forall k | 0 <= k < |xs| ensures Lift(ValueToSfeel(glossary, xs[k])).Text? <==> !HasUnsupported(xs[k]) {
        EncodingSucceeds(glossary, xs[k]);
      }
      var encs := ListEncodings(glossary, xs);
      if !AllText(encs) {
        var k :| 0 <= k < |encs| && !encs[k].Text?;
        assert HasUnsupported(xs[k]);
      } else {
        forall k | 0 <= k < |xs| ensures !HasUnsupported(xs[k]) {
          assert encs[k].Text?;
        }
      }
    case Dict(es) =>
      var encs := DictEncodings(glossary, es);
      forall k | 0 <= k < |es| ensures encs[k].Text? <==> !HasUnsupported(es[k].1) {
        EncodingSucceeds(glossary, es[k].1);
        assert encs[k] == EntryEncoding(glossary, es[k].0, es[k].1);
      }
      if !AllText(encs) {
        var k :| 0 <= k < |encs| && !encs[k].Text?;
        assert HasUnsupported(es[k].1);
      } else {
        forall k | 0 <= k < |es| ensures !HasUnsupported(es[k].1) {
          assert encs[k].Text?;
        }
      }
    case _ =>
  }
}
