/** Validation of a decision table's hit policy (section 8.2.11 of DMN 1.1):
    the code in the table's hit-policy cell and, for the P(riority) and
    O(utput order) policies, the presence of a list of ranked output
    values. */
module HitPolicy {
  import opened Common

  /** The outcome of reading a hit-policy cell. */
  datatype PolicyCheck =
    | Accepted(policy: string)
    | Rejected(error: Error)
    | Raised   // the cell holds only white space: indexing its first character fails

  /** The single letter codes. */
  const Letters: string := "UAPFCOR"

  /** The aggregation suffixes of a two character code. */
  const Suffixes: string := "+<>#"

  /** The policies a table may declare, listed independently of the check. */
  function ValidPolicies(): set<string>
  {
    (set c | c in Letters :: [c]) + (set c, d | c in Letters && d in Suffixes :: [c, d])
  }

  /** The text of the hit-policy cell: an empty cell stands for `U`. */
  function PolicyText(cell: Cell): string
  {
    if cell.None? then "U" else Strip(cell.value)
  }

  /** The hit-policy check of a table's heading (rules as rows) or footer
      (rules as columns). */
  function CheckHitPolicy(cell: Cell, table: string): (r: PolicyCheck)
    ensures r.Rejected? ==> r.error == InvalidHitPolicy(PolicyText(cell), table)
    ensures r.Accepted? ==> r.policy == PolicyText(cell)
  {
    var hp := PolicyText(cell);
    if |hp| == 0 then Raised
    else if hp[0] !in Letters then Rejected(InvalidHitPolicy(hp, table))
    else if |hp| != 1 && (|hp| != 2 || hp[1] !in Suffixes) then Rejected(InvalidHitPolicy(hp, table))
    else Accepted(hp)
  }

  lemma {:induction false} ValidPolicyShape(p: string)
    ensures p in ValidPolicies() <==>
              (|p| == 1 && p[0] in Letters) || (|p| == 2 && p[0] in Letters && p[1] in Suffixes)
  {
    if |p| == 1 && p[0] in Letters {
      assert p == [p[0]];
    } else if |p| == 2 && p[0] in Letters && p[1] in Suffixes {
      assert p == [p[0], p[1]];
    }
  }

  /** A policy is accepted exactly when it is one of the valid codes; any
      other non-blank text is rejected with one error for the table. */
  lemma HitPolicyAccepted(cell: Cell, table: string)
    ensures CheckHitPolicy(cell, table).Accepted? <==> PolicyText(cell) in ValidPolicies()
    ensures CheckHitPolicy(cell, table).Raised? <==> PolicyText(cell) == ""
    ensures CheckHitPolicy(cell, table).Rejected? <==>
              PolicyText(cell) != "" && PolicyText(cell) !in ValidPolicies()
  {
    ValidPolicyShape(PolicyText(cell));
  }

  /** An empty hit-policy cell means Unique. */
  lemma EmptyCellIsUnique(table: string)
    ensures CheckHitPolicy(None, table) == Accepted("U")
  {
  }

  /** Some cell of the validity row, after the hit-policy column, is
      filled in. */
  function RanksFound(row: seq<Cell>): (r: bool)
    ensures r <==> exists k :: 1 <= k < |row| && row[k].Some?
  {
    if |row| <= 1 then false
    else row[|row| - 1].Some? || RanksFound(row[..|row| - 1])
  }

  /** The rank check of a table whose hit policy is accepted: `validity` is
      the validity row when the table has one. */
  function RankCheck(policy: string, table: string, validity: Option<seq<Cell>>): (r: Option<Error>)
    ensures r.Some? ==> r.value == MissingRankList(table, policy)
  {
    if policy !in ["P", "O"] then None
    else if validity.None? || !RanksFound(validity.value) then Some(MissingRankList(table, policy))
    else None
  }

  /** Only the single letter P and O policies need ranks, and they are
      rejected exactly when no rank is written. */
  lemma RankCheckRejects(policy: string, table: string, validity: Option<seq<Cell>>)
    ensures RankCheck(policy, table, validity).Some? <==>
              (policy == "P" || policy == "O") &&
              (validity.None? || forall k :: 1 <= k < |validity.value| ==> validity.value[k].None?)
  {
  }

  /** The aggregated policies P+, O# and so on are never asked for ranks. */
  lemma AggregatedNeedsNoRanks(policy: string, table: string, validity: Option<seq<Cell>>)
    requires |policy| == 2
    ensures RankCheck(policy, table, validity) == None
  {
  }
}
