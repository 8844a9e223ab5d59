/** Shared vocabulary of the DMN rules model: spreadsheet cells, the Python
    string operations the engine relies on (strip, find, split, join,
    startswith, endswith), runtime values and the error list entries. */
module Common {

  datatype Option<T> = None | Some(value: T)

  /** A spreadsheet cell: empty (`None`) or holding text. */
  type Cell = Option<string>

  /** The position of a cell, as (row, column) offsets from the title cell
      of the table it belongs to. */
  datatype Coord = Coord(row: nat, col: nat)

  /** The cell of `row` at column `col`; a spreadsheet has an empty cell
      beyond the last one that was written. */
  function CellAt(row: seq<Cell>, col: nat): (c: Cell)
    ensures col >= |row| ==> c == None
    ensures col < |row| ==> c == row[col]
  {
    if col < |row| then row[col] else None
  }

  /** A Python value, as handed to the engine in the `data` of a decision
      or returned by the S-FEEL evaluator. `Unsupported` stands for a value
      of any type the S-FEEL serialiser refuses. Dictionaries keep their
      insertion order and have string keys. */
  datatype Value =
    | Null
    | Bool(b: bool)
    | Int(i: int)
    | Str(s: string)
    | List(items: seq<Value>)
    | Dict(entries: seq<(string, Value)>)
    | Unsupported

  /** One glossary entry: the S-FEEL item `Concept.Attribute` that a
      business variable stands for, and its business concept. */
  datatype Entry = Entry(item: string, concept: string)

  /** The entries the engine appends to its error list. The message text of
      the source is represented by the error's kind and arguments. */
  datatype Error =
    | SyntaxError(at: Coord, token: string)
    | BadSfeel(test: string, at: Coord)
    | InvalidRange(at: Coord)
    | InvalidData
    | InvalidHitPolicy(policy: string, table: string)
    | MissingRankList(table: string, policy: string)
    | GlossaryNotThreeColumns
    | MissingVariableHeading
    | MissingConceptHeading
    | MissingAttributeHeading
    | DuplicateVariable(variable: Cell, row: nat)
    | MissingConcept(row: nat)
    | BadConcept(concept: string, row: nat)
    | DuplicateConcept(concept: string, row: nat)
    | BadAttribute(attribute: Cell, variable: Cell, concept: string, row: nat)
    | DecisionTooNarrow
    | BadDecisionHeading(heading: Cell, col: nat)
    | MissingDecisionsHeading
    | MissingExecuteHeading
    | RepeatedTable(tableCell: Cell, col: nat)
    | NotLoaded
    | VariableNotInGlossary(name: string)
    | NoRulesMatched(tableCell: Cell)
    | NoRules(table: string)
    | ParserError(message: string)    // reported by the S-FEEL parser

  /** A translation into S-FEEL text together with the errors it appends. */
  datatype Translation = Translation(text: string, errors: seq<Error>)

  // ---------------------------------------------------------------------
  // Python string operations

  /** Python's `str.isspace`: the characters of the Unicode white-space
      and separator classes that `str.strip()` removes. */
  predicate IsSpace(c: char)
  {
    c == ' ' || c == '\t' || c == '\n' || c == '\r' || c == '\U{000B}' || c == '\U{000C}'
    || c == '\U{001C}' || c == '\U{001D}' || c == '\U{001E}' || c == '\U{001F}'
    || c == '\U{0085}' || c == '\U{00A0}' || c == '\U{1680}'
    || ('\U{2000}' <= c <= '\U{200A}')
    || c == '\U{2028}' || c == '\U{2029}' || c == '\U{202F}' || c == '\U{205F}' || c == '\U{3000}'
  }

  function LStrip(s: string): (r: string)
    ensures r != [] ==> !IsSpace(r[0])
  {
    if |s| > 0 && IsSpace(s[0]) then LStrip(s[1..]) else s
  }

  function RStrip(s: string): (r: string)
    ensures r != [] ==> !IsSpace(r[|r| - 1])
  {
    if |s| > 0 && IsSpace(s[|s| - 1]) then RStrip(s[..|s| - 1]) else s
  }

  /** Python's `str.strip()`: the text without leading and trailing white space. */
  function Strip(s: string): (r: string)
    ensures |r| <= |s|
    ensures r != [] ==> !IsSpace(r[0]) && !IsSpace(r[|r| - 1])
  {
    LStripRemovesSpaces(s);
    RStripRemovesSpaces(LStrip(s));
    RStrip(LStrip(s))
  }

  lemma {:induction false} LStripRemovesSpaces(s: string)
    ensures |LStrip(s)| <= |s| && LStrip(s) == s[|s| - |LStrip(s)|..]
    ensures forall k :: 0 <= k < |s| - |LStrip(s)| ==> IsSpace(s[k])
    decreases |s|
  {
    if |s| > 0 && IsSpace(s[0]) {
      LStripRemovesSpaces(s[1..]);
    }
  }

  lemma {:induction false} RStripRemovesSpaces(s: string)
    ensures |RStrip(s)| <= |s| && RStrip(s) == s[..|RStrip(s)|]
    ensures forall k :: |RStrip(s)| <= k < |s| ==> IsSpace(s[k])
    decreases |s|
  {
    if |s| > 0 && IsSpace(s[|s| - 1]) {
      RStripRemovesSpaces(s[..|s| - 1]);
    }
  }

  /** `Strip(s)` is the slice of `s` from offset `i` once the white space
      before and after it is removed. */
  lemma StripIsSlice(s: string) returns (i: nat)
    ensures i + |Strip(s)| <= |s| && Strip(s) == s[i..i + |Strip(s)|]
    ensures forall k :: 0 <= k < i ==> IsSpace(s[k])
    ensures forall k :: i + |Strip(s)| <= k < |s| ==> IsSpace(s[k])
  {
    LStripRemovesSpaces(s);
    var l := LStrip(s);
    RStripRemovesSpaces(l);
    i := |s| - |l|;
    assert Strip(s) == s[i..][..|Strip(s)|];
    forall k | i + |Strip(s)| <= k < |s|
      ensures IsSpace(s[k])
    {
      assert s[k] == l[k - i];
    }
  }

  predicate StartsWith(s: string, p: string)
  {
    |p| <= |s| && s[..|p|] == p
  }

  predicate EndsWith(s: string, p: string)
  {
    |p| <= |s| && s[|s| - |p|..] == p
  }

  /** `sub` occurs in `s` starting at index `j`. */
  predicate OccursAt(s: string, sub: string, j: int)
  {
    0 <= j && j + |sub| <= |s| && s[j..j + |sub|] == sub
  }

  function FindFrom(s: string, sub: string, i: nat): (r: int)
    requires i <= |s|
    ensures r == -1 || (i <= r && OccursAt(s, sub, r))
    decreases |s| - i
  {
    if i + |sub| > |s| then -1
    else if s[i..i + |sub|] == sub then i
    else FindFrom(s, sub, i + 1)
  }

  /** Python's `str.find`: the first index at which `sub` occurs, or -1. */
  function Find(s: string, sub: string): (r: int)
    ensures r == -1 || OccursAt(s, sub, r)
  {
    FindFrom(s, sub, 0)
  }

  lemma {:induction false} FindFromFirst(s: string, sub: string, i: nat)
    requires i <= |s|
    ensures FindFrom(s, sub, i) == -1 ==> forall j :: i <= j ==> !OccursAt(s, sub, j)
    ensures FindFrom(s, sub, i) != -1 ==> forall j :: i <= j < FindFrom(s, sub, i) ==> !OccursAt(s, sub, j)
    decreases |s| - i
  {
    if i + |sub| <= |s| && s[i..i + |sub|] != sub {
      FindFromFirst(s, sub, i + 1);
    }
  }

  /** `Find` returns -1 exactly when `sub` does not occur, and otherwise the
      first index where it does. */
  lemma FindIsFirstOccurrence(s: string, sub: string)
    ensures Find(s, sub) == -1 <==> forall j :: !OccursAt(s, sub, j)
    ensures Find(s, sub) != -1 ==> forall j :: 0 <= j < Find(s, sub) ==> !OccursAt(s, sub, j)
  {
    FindFromFirst(s, sub, 0);
  }

  /** Python's `sub in s` on strings. */
  predicate Contains(s: string, sub: string)
  {
    Find(s, sub) != -1
  }

  /** Python's `str.split(sep)` for a non-empty separator. */
  function Split(s: string, sep: string): (r: seq<string>)
    requires |sep| > 0
    ensures |r| >= 1
    decreases |s|
  {
    var k := Find(s, sep);
    if k == -1 then [s] else [s[..k]] + Split(s[k + |sep|..], sep)
  }

  /** Python's `sep.join(parts)`. */
  function Join(sep: string, parts: seq<string>): string
  {
    if |parts| == 0 then ""
    else if |parts| == 1 then parts[0]
    else parts[0] + sep + Join(sep, parts[1..])
  }

  /** The accumulator loop the engine uses to build lists:
      `acc = start; for p in parts: if acc != start: acc += sep; acc += p`. */
  function Accumulate(start: string, sep: string, parts: seq<string>): string
  {
    if |parts| == 0 then start
    else
      var acc := Accumulate(start, sep, parts[..|parts| - 1]);
      (if acc != start then acc + sep else acc) + parts[|parts| - 1]
  }

  /** Building with the accumulator loop equals joining, as long as the
      first part is not empty (afterwards the accumulator never equals the
      start again). */
  lemma {:induction false} AccumulateIsJoin(start: string, sep: string, parts: seq<string>)
    requires |parts| == 0 || parts[0] != ""
    ensures Accumulate(start, sep, parts) == start + Join(sep, parts)
    decreases |parts|
  {
    if |parts| <= 1 {
    } else {
      var init := parts[..|parts| - 1];
      AccumulateIsJoin(start, sep, init);
      JoinSnoc(sep, init, parts[|parts| - 1]);
      assert init + [parts[|parts| - 1]] == parts;
      assert Join(sep, init) != "" by { JoinHead(sep, init); }
    }
  }

  lemma {:induction false} JoinSnoc(sep: string, parts: seq<string>, last: string)
    requires |parts| > 0
    ensures Join(sep, parts + [last]) == Join(sep, parts) + sep + last
    decreases |parts|
  {
    if |parts| == 1 {
      assert parts + [last] == [parts[0], last];
    } else {
      assert (parts + [last])[1..] == parts[1..] + [last];
      JoinSnoc(sep, parts[1..], last);
    }
  }

  lemma {:induction false} JoinHead(sep: string, parts: seq<string>)
    requires |parts| > 0
    ensures |Join(sep, parts)| >= |parts[0]| && Join(sep, parts)[..|parts[0]|] == parts[0]
  {
    if |parts| > 1 {
      assert Join(sep, parts) == parts[0] + (sep + Join(sep, parts[1..]));
    }
  }
}
