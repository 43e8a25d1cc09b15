/**
 * The per-row queries of the report: alias lookups for the exams, prefix
 * sums by category, and the "recent effort" score.
 */
module Queries {
  import opened Outcomes
  import opened Columns

  /** Python's `s.startswith(p)`; `s[:n] == p` with `n == |p|` is the same test. */
  predicate StartsWith(s: string, p: string)
  {
    |p| <= |s| && s[..|p|] == p
  }

  /** The sum of the row's values under the columns that `keep` accepts, each once. */
  function SumWhere(cols: seq<string>, row: seq<real>, keep: string -> bool): real
    requires |row| == |cols|
  {
    if |cols| == 0 then 0.0
    else (if keep(cols[0]) then row[0] else 0.0) + SumWhere(cols[1..], row[1..], keep)
  }

  /**
   * A column accepted by either of two tests is counted once: the sums under
   * the union and the intersection add up to the sums under the two tests.
   */
  lemma {:induction false} SumWhereUnion(cols: seq<string>, row: seq<real>,
                                         p: string -> bool, q: string -> bool,
                                         either: string -> bool, both: string -> bool)
    requires |row| == |cols|
    requires forall i :: 0 <= i < |cols| ==> (either(cols[i]) <==> p(cols[i]) || q(cols[i]))
    requires forall i :: 0 <= i < |cols| ==> (both(cols[i]) <==> p(cols[i]) && q(cols[i]))
    ensures SumWhere(cols, row, either) + SumWhere(cols, row, both)
         == SumWhere(cols, row, p) + SumWhere(cols, row, q)
  {
    if |cols| > 0 {
      SumWhereUnion(cols[1..], row[1..], p, q, either, both);
    }
  }

  /** No accepted column: the sum is 0. */
  lemma {:induction false} SumWhereNone(cols: seq<string>, row: seq<real>, keep: string -> bool)
    requires |row| == |cols|
    ensures (forall i :: 0 <= i < |cols| ==> !keep(cols[i])) ==> SumWhere(cols, row, keep) == 0.0
  {
    if |cols| > 0 {
      SumWhereNone(cols[1..], row[1..], keep);
    }
  }

  /** Non-negative scores give a non-negative sum. */
  lemma {:induction false} SumWhereNonNegative(cols: seq<string>, row: seq<real>, keep: string -> bool)
    requires |row| == |cols|
    ensures (forall i :: 0 <= i < |row| ==> row[i] >= 0.0) ==> SumWhere(cols, row, keep) >= 0.0
  {
    if |cols| > 0 {
      SumWhereNonNegative(cols[1..], row[1..], keep);
    }
  }

  /** by_cat(prefix): the sum of the columns whose name starts with `prefix`. */
  function ByCat(prefix: string, cols: seq<string>, row: seq<real>): (r: real)
    requires |row| == |cols|
    ensures (forall i :: 0 <= i < |cols| ==> !StartsWith(cols[i], prefix)) ==> r == 0.0
    ensures (forall i :: 0 <= i < |row| ==> row[i] >= 0.0) ==> r >= 0.0
  {
    var keep := c => StartsWith(c, prefix);
    SumWhereNone(cols, row, keep);
    SumWhereNonNegative(cols, row, keep);
    SumWhere(cols, row, keep)
  }

  /** The position of the last column whose name starts with `prefix`, if any. */
  function LastMatch(cols: seq<string>, prefix: string): (r: Option<nat>)
    ensures r.None? ==> forall i :: 0 <= i < |cols| ==> !StartsWith(cols[i], prefix)
    ensures r.Some? ==> r.value < |cols| && StartsWith(cols[r.value], prefix)
    ensures r.Some? ==> forall j :: r.value < j < |cols| ==> !StartsWith(cols[j], prefix)
  {
    if |cols| == 0 then None
    else if StartsWith(cols[|cols| - 1], prefix) then Some(|cols| - 1)
    else LastMatch(cols[..|cols| - 1], prefix)
  }

  /** The value under the last column starting with `prefix`, or 0 when there is none. */
  function LastValue(cols: seq<string>, row: seq<real>, prefix: string): real
    requires |row| == |cols|
  {
    match LastMatch(cols, prefix)
    case None => 0.0
    case Some(k) => row[k]
  }

  /** The "recent effort" score: twice the latest discussion and lab, plus the latest homework. */
  function RecentEffortOf(cols: seq<string>, row: seq<real>): real
    requires |row| == |cols|
  {
    2.0 * (LastValue(cols, row, "disc") + LastValue(cols, row, "lab")) + LastValue(cols, row, "hw")
  }

  /**
   * recent_effort: walks the columns and overwrites the discussion, lab and
   * homework value at each match, so the last match of each prefix wins.
   */
  method RecentEffort(cols: seq<string>, row: seq<real>) returns (r: real)
    requires |row| == |cols|
    ensures r == RecentEffortOf(cols, row)
  {
    var lab, hw, disc := 0.0, 0.0, 0.0;
    for i := 0 to |cols|
      invariant disc == LastValue(cols[..i], row[..i], "disc")
      invariant lab == LastValue(cols[..i], row[..i], "lab")
      invariant hw == LastValue(cols[..i], row[..i], "hw")
    {
      assert cols[..i + 1][..i] == cols[..i];
      if StartsWith(cols[i], "disc") {
        disc := row[i];
      }
      if StartsWith(cols[i], "lab") {
        lab := row[i];
      }
      if StartsWith(cols[i], "hw") {
        hw := row[i];
      }
    }
    assert cols[..|cols|] == cols && row[..|row|] == row;
    r := 2.0 * (disc + lab) + hw;
  }

  /**
   * The query built by `for_assignments(*aliases)`: the value of the first alias,
   * in argument order, that names a column; 0 when none does.
   */
  function AliasLookup(aliases: seq<string>, cols: seq<string>, row: seq<real>): (r: real)
    requires |row| == |cols|
    ensures (forall k :: 0 <= k < |aliases| ==> aliases[k] !in cols) ==> r == 0.0
    ensures forall k :: 0 <= k < |aliases| && aliases[k] in cols && (forall j :: 0 <= j < k ==> aliases[j] !in cols) ==>
              r == row[IndexOf(cols, aliases[k])]
  {
    if |aliases| == 0 then 0.0
    else if aliases[0] in cols then row[IndexOf(cols, aliases[0])]
    else AliasLookup(aliases[1..], cols, row)
  }

  /** The query returned by for_assignments: scans the aliases and returns at the first present one. */
  method ForAssignments(aliases: seq<string>, cols: seq<string>, row: seq<real>) returns (r: real)
    requires |row| == |cols|
    ensures r == AliasLookup(aliases, cols, row)
  {
    for i := 0 to |aliases|
      invariant forall j :: 0 <= j < i ==> aliases[j] !in cols
    {
      if aliases[i] in cols {
        return row[IndexOf(cols, aliases[i])];
      }
    }
    return 0.0;
  }

  const FINAL: seq<string> := ["final"]
  const MIDTERM_1: seq<string> := ["mt1", "midterm1"]
  const MIDTERM_2: seq<string> := ["mt2", "midterm2"]

  /** The three kinds of query the report runs. */
  datatype Query =
    | ForAssignmentsQuery(aliases: seq<string>)
    | ByCatQuery(prefix: string)
    | RecentEffortQuery

  /** QUERIES: the report's named queries, in column order. */
  const QUERIES: seq<(string, Query)> := [
    ("final", ForAssignmentsQuery(FINAL)),
    ("midterm 2", ForAssignmentsQuery(MIDTERM_2)),
    ("midterm 1", ForAssignmentsQuery(MIDTERM_1)),
    ("proj", ByCatQuery("proj")),
    ("disc", ByCatQuery("disc")),
    ("lab", ByCatQuery("lab")),
    ("hw", ByCatQuery("hw")),
    ("recent effort", RecentEffortQuery)
  ]

  function Evaluate(q: Query, cols: seq<string>, row: seq<real>): real
    requires |row| == |cols|
  {
    match q
    case ForAssignmentsQuery(aliases) => AliasLookup(aliases, cols, row)
    case ByCatQuery(prefix) => ByCat(prefix, cols, row)
    case RecentEffortQuery => RecentEffortOf(cols, row)
  }

  /** The "final" query reads 0 when no final exam column is present. */
  lemma FinalQueryAbsent(cols: seq<string>, row: seq<real>)
    requires |row| == |cols| && "final" !in cols
    ensures Evaluate(QUERIES[0].1, cols, row) == 0.0
  {
  }
}
