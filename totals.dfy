/**
 * The Total column: category sums by name, the split of participation into
 * points and recovery currency, and the midterm recovery formula (total,
 * midterm_recovery).
 */
module Totals {
  import opened Outcomes
  import opened Columns
  import opened Queries

  /** Python's `sub in s` on strings. */
  predicate Contains(s: string, sub: string)
    decreases |s|
  {
    StartsWith(s, sub) || (|s| > 0 && Contains(s[1..], sub))
  }

  /** The categories total sums by name. */
  datatype Category = Discussion | Lab | LabCheckoff | Homework | ProjectCheckpoint

  /**
   * The Total's own classification of a column name; `col[:n] == p` is a prefix
   * test. Lab needs a fourth character other than 'c' (the name "lab" itself
   * makes total fail, see TotalFailure).
   */
  predicate InCategory(col: string, cat: Category)
  {
    match cat
    case Discussion => StartsWith(col, "disc")
    case Lab => StartsWith(col, "lab") && |col| > 3 && col[3] != 'c'
    case LabCheckoff => StartsWith(col, "labc")
    case Homework => StartsWith(col, "hw")
    case ProjectCheckpoint => StartsWith(col, "proj") || Contains(col, "checkpoint")
  }

  function CategorySum(cat: Category, cols: seq<string>, row: seq<real>): real
    requires |row| == |cols|
  {
    SumWhere(cols, row, c => InCategory(c, cat))
  }

  /** pandas `clip(lo, hi)`. */
  function Clip(x: real, lo: real, hi: real): real
  {
    if x < lo then lo else if x > hi then hi else x
  }

  function Min(x: real, y: real): real
  {
    if x <= y then x else y
  }

  /**
   * midterm_recovery: a score below half of the maximum gains recovery
   * currency, at most half of its distance to the half mark (that distance
   * clipped to 10000); a score at or above half gains nothing.
   */
  function MidtermRecovery(score: real, recovery: real, maxScore: real): (r: real)
    ensures r <= score + recovery
    ensures recovery >= 0.0 ==> r >= score
    ensures score >= maxScore / 2.0 ==> r == score + Min(recovery, 0.0)
    ensures score < maxScore / 2.0 && maxScore / 2.0 - score <= 10000.0 ==>
              r == score + Min(recovery, (maxScore / 2.0 - score) / 2.0)
    ensures score < maxScore / 2.0 ==> r < maxScore / 2.0
  {
    var halfScore := maxScore / 2.0;
    var maxRecovery := Clip(halfScore - score, 0.0, 10000.0) / 2.0;
    score + Min(recovery, maxRecovery)
  }

  /** Raising the midterm score never lowers the recovered score. */
  lemma MidtermRecoveryMonotone(score: real, score': real, recovery: real, maxScore: real)
    requires score <= score'
    ensures MidtermRecovery(score, recovery, maxScore) <= MidtermRecovery(score', recovery, maxScore)
  {
  }

  /** Participation up to 10 is awarded directly. */
  function ParticipPoints(participation: real): (r: real)
    ensures 0.0 <= r <= 10.0
    ensures 0.0 <= participation <= 10.0 ==> r == participation
    ensures participation >= 10.0 ==> r == 10.0
    ensures participation <= 0.0 ==> r == 0.0
  {
    Clip(participation, 0.0, 10.0)
  }

  /**
   * Participation between 10 and 30 becomes recovery currency; with the points
   * it adds up to participation clipped to [0, 30].
   */
  function ParticipRecovery(participation: real): (r: real)
    ensures 0.0 <= r <= 20.0
    ensures ParticipPoints(participation) + r == Clip(participation, 0.0, 30.0)
  {
    Clip(participation, 10.0, 30.0) - 10.0
  }

  /** The final exam is not released: its part of the Total is 0. */
  const FinalPlaceholder: real := 0.0

  /**
   * Why total raises for a table with these columns, checked in the order
   * total reaches each cause; None when it returns a value.
   */
  function TotalFailure(cols: seq<string>): (r: Option<Failure>)
    ensures r.None? <==> "lab" !in cols && "midterm1" in cols && "midterm1extra" in cols && "midterm2" in cols
                         && exists i :: 0 <= i < |cols| && (StartsWith(cols[i], "disc") || StartsWith(cols[i], "lab"))
    ensures "lab" in cols ==> r == Some(BareLabColumn)
    ensures "lab" !in cols && "midterm1" !in cols ==> r == Some(MissingColumn("midterm1"))
    ensures "lab" !in cols && "midterm1" in cols && "midterm1extra" !in cols ==> r == Some(MissingColumn("midterm1extra"))
    ensures "lab" !in cols && "midterm1" in cols && "midterm1extra" in cols && "midterm2" !in cols ==>
              r == Some(MissingColumn("midterm2"))
    ensures "lab" !in cols && "midterm1" in cols && "midterm1extra" in cols && "midterm2" in cols
            && (forall i :: 0 <= i < |cols| ==> !StartsWith(cols[i], "disc") && !StartsWith(cols[i], "lab")) ==>
              r == Some(NoParticipationColumns)
  {
    if "lab" in cols then Some(BareLabColumn)
    else if "midterm1" !in cols then Some(MissingColumn("midterm1"))
    else if "midterm1extra" !in cols then Some(MissingColumn("midterm1extra"))
    else if "midterm2" !in cols then Some(MissingColumn("midterm2"))
    else if forall i :: 0 <= i < |cols| ==> !StartsWith(cols[i], "disc") && !StartsWith(cols[i], "lab") then
      Some(NoParticipationColumns)
    else None
  }

  /** The parts total combines for one student. */
  datatype Breakdown = Breakdown(mt1: real, mt2: real, proj: real, hw: real, participation: real)

  function BreakdownOf(cols: seq<string>, row: seq<real>): Breakdown
    requires TotalFailure(cols).None? && |row| == |cols|
  {
    Breakdown(
      mt1 := row[IndexOf(cols, "midterm1")] + row[IndexOf(cols, "midterm1extra")],
      mt2 := row[IndexOf(cols, "midterm2")],
      proj := CategorySum(ProjectCheckpoint, cols, row),
      hw := CategorySum(Homework, cols, row),
      participation := CategorySum(Discussion, cols, row) + CategorySum(Lab, cols, row)
                       + CategorySum(LabCheckoff, cols, row))
  }

  /**
   * The Total of one breakdown. Both midterms draw on the same recovery pool, so
   * the Total lies between the unrecovered sum and that sum plus twice the pool.
   */
  function Compose(b: Breakdown): (t: real)
    ensures var base := b.mt1 + b.mt2 + FinalPlaceholder + b.proj + b.hw + ParticipPoints(b.participation);
      base <= t <= base + 2.0 * ParticipRecovery(b.participation)
    ensures var base := b.mt1 + b.mt2 + FinalPlaceholder + b.proj + b.hw + ParticipPoints(b.participation);
      var pool := ParticipRecovery(b.participation);
      b.mt1 <= 20.0 - 2.0 * pool && b.mt2 <= 25.0 - 2.0 * pool ==> t == base + 2.0 * pool
  {
    var recovery := ParticipRecovery(b.participation);
    MidtermRecovery(b.mt1, recovery, 40.0) + MidtermRecovery(b.mt2, recovery, 50.0)
    + FinalPlaceholder + b.proj + b.hw + ParticipPoints(b.participation)
  }

  /**
   * total: the Total of one student's row. Told through the display queries:
   * participation is the "disc" query plus the "lab" query, and one recovery
   * pool serves both midterms.
   */
  function Total(cols: seq<string>, row: seq<real>): (t: real)
    requires TotalFailure(cols).None? && |row| == |cols|
    ensures var participation := ByCat("disc", cols, row) + ByCat("lab", cols, row);
      var pool := ParticipRecovery(participation);
      t == MidtermRecovery(row[IndexOf(cols, "midterm1")] + row[IndexOf(cols, "midterm1extra")], pool, 40.0)
           + MidtermRecovery(row[IndexOf(cols, "midterm2")], pool, 50.0)
           + 0.0 + CategorySum(ProjectCheckpoint, cols, row) + ByCat("hw", cols, row)
           + ParticipPoints(participation)
  {
    TotalMatchesDisplayQueries(cols, row);
    Compose(BreakdownOf(cols, row))
  }

  lemma {:induction false} SumWhereAgree(cols: seq<string>, row: seq<real>, p: string -> bool, q: string -> bool)
    requires |row| == |cols|
    requires forall i :: 0 <= i < |cols| ==> (p(cols[i]) <==> q(cols[i]))
    ensures SumWhere(cols, row, p) == SumWhere(cols, row, q)
  {
    if |cols| > 0 {
      SumWhereAgree(cols[1..], row[1..], p, q);
    }
  }

  /** Every name starting with "lab" other than "lab" itself is in exactly one of Lab and LabCheckoff. */
  lemma LabNameSplit(col: string)
    requires col != "lab"
    ensures StartsWith(col, "lab") <==> InCategory(col, Lab) || InCategory(col, LabCheckoff)
    ensures !(InCategory(col, Lab) && InCategory(col, LabCheckoff))
  {
  }

  /**
   * Total's lab and lab-checkoff categories never share a column and together
   * make up the display query `by_cat("lab")`.
   */
  lemma TotalLabSplit(cols: seq<string>, row: seq<real>)
    requires "lab" !in cols && |row| == |cols|
    ensures CategorySum(Lab, cols, row) + CategorySum(LabCheckoff, cols, row) == ByCat("lab", cols, row)
  {
    forall i | 0 <= i < |cols| ensures (StartsWith(cols[i], "lab") <==> InCategory(cols[i], Lab) || InCategory(cols[i], LabCheckoff))
      && !(InCategory(cols[i], Lab) && InCategory(cols[i], LabCheckoff)) {
      LabNameSplit(cols[i]);
    }
    var none := (c: string) => false;
    SumWhereUnion(cols, row, c => InCategory(c, Lab), c => InCategory(c, LabCheckoff), c => StartsWith(c, "lab"), none);
    SumWhereNone(cols, row, none);
  }

  /**
   * The participation total feeds on is the display "disc" and "lab" queries
   * added, and its homework is the "hw" query.
   */
  lemma TotalMatchesDisplayQueries(cols: seq<string>, row: seq<real>)
    requires TotalFailure(cols).None? && |row| == |cols|
    ensures BreakdownOf(cols, row).participation == ByCat("disc", cols, row) + ByCat("lab", cols, row)
    ensures BreakdownOf(cols, row).hw == ByCat("hw", cols, row)
  {
    TotalLabSplit(cols, row);
    SumWhereAgree(cols, row, c => InCategory(c, Discussion), c => StartsWith(c, "disc"));
    SumWhereAgree(cols, row, c => InCategory(c, Homework), c => StartsWith(c, "hw"));
  }

  /**
   * The project sum counts a column once even when its name both starts with
   * "proj" and contains "checkpoint".
   */
  lemma TotalProjectCountsOnce(cols: seq<string>, row: seq<real>)
    requires |row| == |cols|
    ensures CategorySum(ProjectCheckpoint, cols, row) + SumWhere(cols, row, c => StartsWith(c, "proj") && Contains(c, "checkpoint"))
         == ByCat("proj", cols, row) + SumWhere(cols, row, c => Contains(c, "checkpoint"))
  {
    SumWhereUnion(cols, row, c => StartsWith(c, "proj"), c => Contains(c, "checkpoint"),
                  c => InCategory(c, ProjectCheckpoint), c => StartsWith(c, "proj") && Contains(c, "checkpoint"));
  }
}
