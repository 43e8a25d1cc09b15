/**
 * The report: Total, then the named queries, then the raw non-exam columns,
 * pruned of all-zero columns and sorted by whole rows (matches_exam,
 * run_queries).
 */
module Report {
  import opened Outcomes
  import opened Lex
  import opened Columns
  import opened Frames
  import opened Queries
  import opened Totals

  /** FINAL + MIDTERM_1 + MIDTERM_2 */
  const EXAMS: seq<string> := FINAL + MIDTERM_1 + MIDTERM_2

  predicate IsExam(column: string)
  {
    column in EXAMS
  }

  /** matches_exam: or-s together the comparisons of the column with every exam alias. */
  method MatchesExam(column: string) returns (result: bool)
    ensures result == IsExam(column)
  {
    result := false;
    var exams := FINAL + MIDTERM_1 + MIDTERM_2;
    for i := 0 to |exams|
      invariant result <==> column in exams[..i]
    {
      result := result || column == exams[i];
    }
    assert exams[..|exams|] == exams;
  }

  function QueryNames(): (names: seq<string>)
    ensures |names| == |QUERIES|
  {
    seq(|QUERIES|, k requires 0 <= k < |QUERIES| => QUERIES[k].0)
  }

  /** The positions of the raw columns that are not exams, in order. */
  function NonExam(cols: seq<string>): (idx: seq<nat>)
    ensures forall k :: 0 <= k < |idx| ==> idx[k] < |cols| && !IsExam(cols[idx[k]])
    ensures forall j :: 0 <= j < |cols| && !IsExam(cols[j]) ==> j in idx
    ensures forall k, l :: 0 <= k < l < |idx| ==> idx[k] < idx[l]
  {
    Select(|cols|, (j: nat) => j < |cols| && !IsExam(cols[j]))
  }

  function QueryValues(cols: seq<string>, row: seq<real>): (vs: seq<real>)
    requires |row| == |cols|
    ensures |vs| == |QUERIES|
  {
    seq(|QUERIES|, k requires 0 <= k < |QUERIES| => Evaluate(QUERIES[k].1, cols, row))
  }

  /** One student's report row: Total, the query values in order, then the raw values at `keep`. */
  function AssembledRow(cols: seq<string>, row: seq<real>, keep: seq<nat>): (vs: seq<real>)
    requires TotalFailure(cols).None? && |row| == |cols|
    requires forall k :: 0 <= k < |keep| ==> keep[k] < |cols|
    ensures |vs| == 1 + |QUERIES| + |keep|
    ensures vs[0] == Total(cols, row)
    ensures forall q :: 0 <= q < |QUERIES| ==> vs[1 + q] == Evaluate(QUERIES[q].1, cols, row)
    ensures forall k :: 0 <= k < |keep| ==> vs[1 + |QUERIES| + k] == row[keep[k]]
  {
    [Total(cols, row)] + QueryValues(cols, row) + Project(row, keep)
  }

  /** The report header: "Total", the query names in order, then the raw labels at `keep`. */
  function AssembledHeader(cols: seq<string>, keep: seq<nat>): (hs: seq<string>)
    requires forall k :: 0 <= k < |keep| ==> keep[k] < |cols|
    ensures |hs| == 1 + |QUERIES| + |keep|
    ensures hs[0] == "Total"
    ensures forall q :: 0 <= q < |QUERIES| ==> hs[1 + q] == QUERIES[q].0
    ensures forall k :: 0 <= k < |keep| ==> hs[1 + |QUERIES| + k] == cols[keep[k]]
  {
    ["Total"] + QueryNames() + Project(cols, keep)
  }

  /**
   * The report before pruning and sorting: per student, the Total, the value of
   * every query in order, then the student's non-exam raw scores.
   */
  function Assemble(f: Frame): (g: Frame)
    requires WellFormed(f) && TotalFailure(f.columns).None?
    ensures WellFormed(g) && |g.rows| == |f.rows| && |g.columns| >= 1 + |QUERIES|
    ensures g.columns[0] == "Total"
    ensures forall q :: 0 <= q < |QUERIES| ==> g.columns[1 + q] == QUERIES[q].0
    ensures forall i :: 0 <= i < |f.rows| ==>
      g.rows[i].student == f.rows[i].student && g.rows[i].values[0] == Total(f.columns, f.rows[i].values)
    ensures forall i, q :: 0 <= i < |f.rows| && 0 <= q < |QUERIES| ==>
      g.rows[i].values[1 + q] == Evaluate(QUERIES[q].1, f.columns, f.rows[i].values)
    ensures RawPart(f, g, NonExam(f.columns))
  {
    var cols := f.columns;
    var keep := NonExam(cols);
    Frame(AssembledHeader(cols, keep),
          seq(|f.rows|, i requires 0 <= i < |f.rows| =>
            Row(f.rows[i].student, AssembledRow(cols, f.rows[i].values, keep))))
  }

  /**
   * From position 1 + |QUERIES| on, `g` holds exactly the non-exam columns of
   * `f`, in `f`'s order, with their labels and every student's values: the
   * raw column at `k` comes from position `idx[k]` of `f`.
   */
  ghost predicate RawPart(f: Frame, g: Frame, idx: seq<nat>)
    requires WellFormed(f) && WellFormed(g) && |g.rows| == |f.rows| && |g.columns| >= 1 + |QUERIES|
  {
    && |g.columns| == 1 + |QUERIES| + |idx|
    && (forall k :: 0 <= k < |idx| ==> idx[k] < |f.columns| && !IsExam(f.columns[idx[k]]))
    && (forall k :: 0 <= k < |idx| ==> g.columns[1 + |QUERIES| + k] == f.columns[idx[k]])
    && (forall i, k :: 0 <= i < |f.rows| && 0 <= k < |idx| ==>
          idx[k] < |f.columns| && g.rows[i].values[1 + |QUERIES| + k] == f.rows[i].values[idx[k]])
    && (forall k, l :: 0 <= k < l < |idx| ==> idx[k] < idx[l])
    && (forall j :: 0 <= j < |f.columns| && !IsExam(f.columns[j]) ==> j in idx)
  }

  /** Ascending by whole rows, as `sort_values` over every column orders them. */
  predicate SortedRows(rows: seq<Row>)
  {
    forall i, j :: 0 <= i < j < |rows| ==> !RowBelow(rows[j].values, rows[i].values)
  }

  /** Puts `x` before the first row it does not follow; equal rows keep their order. */
  function Insert(x: Row, s: seq<Row>): (r: seq<Row>)
    requires SortedRows(s)
    ensures SortedRows(r)
    ensures multiset(r) == multiset(s) + multiset{x}
  {
    if |s| == 0 then [x]
    else if !RowBelow(s[0].values, x.values) then
      InsertFront(x, s);
      [x] + s
    else
      var t := Insert(x, s[1..]);
      assert s == [s[0]] + s[1..];
      InsertBehind(x, s, t);
      [s[0]] + t
  }

  lemma InsertFront(x: Row, s: seq<Row>)
    requires SortedRows(s) && |s| > 0 && !RowBelow(s[0].values, x.values)
    ensures SortedRows([x] + s)
  {
    RowBelowIsStrictTotalOrder();
    forall j | 0 <= j < |s| ensures !RowBelow(s[j].values, x.values) {
      if j > 0 {
        assert !RowBelow(s[j].values, s[0].values);
      }
    }
  }

  lemma InsertBehind(x: Row, s: seq<Row>, t: seq<Row>)
    requires SortedRows(s) && |s| > 0 && RowBelow(s[0].values, x.values)
    requires SortedRows(t) && multiset(t) == multiset(s[1..]) + multiset{x}
    ensures SortedRows([s[0]] + t)
  {
    RowBelowIsStrictTotalOrder();
    forall k | 0 <= k < |t| ensures !RowBelow(t[k].values, s[0].values) {
      assert t[k] in multiset(t);
      if t[k] != x {
        assert t[k] in multiset(s[1..]);
        var j :| 0 <= j < |s[1..]| && s[1..][j] == t[k];
        assert s[j + 1] == t[k];
      }
    }
  }

  /** An insertion sort: sorted, and a permutation of the input rows. */
  function SortRows(rows: seq<Row>): (r: seq<Row>)
    ensures SortedRows(r)
    ensures multiset(r) == multiset(rows)
  {
    if |rows| == 0 then []
    else
      assert rows == [rows[0]] + rows[1..];
      Insert(rows[0], SortRows(rows[1..]))
  }

  /**
   * run_queries: the report of a score table. It raises what total raises;
   * otherwise it prunes the assembled report, fails when two surviving columns
   * share a label, and sorts the rows.
   */
  function RunQueries(f: Frame): (r: Result<Frame>)
    requires WellFormed(f) && Distinct(f.columns)
    ensures TotalFailure(f.columns).Some? ==> r == Err(TotalFailure(f.columns).value)
    ensures TotalFailure(f.columns).None? ==>
      var g := RemoveAllZeros(Assemble(f));
      && (r.Ok? <==> Distinct(g.columns))
      && (r.Err? ==> r.error == DuplicateColumnLabel)
      && (r.Ok? ==> r.value.columns == g.columns)
      && (r.Ok? ==> SortedRows(r.value.rows) && multiset(r.value.rows) == multiset(g.rows))
  {
    match TotalFailure(f.columns)
    case Some(e) => Err(e)
    case None =>
      var g := RemoveAllZeros(Assemble(f));
      if Distinct(g.columns) then Ok(Frame(g.columns, SortRows(g.rows)))
      else Err(DuplicateColumnLabel)
  }

  lemma ProjectDistinct(s: seq<string>, idx: seq<nat>)
    requires Distinct(s)
    requires forall k :: 0 <= k < |idx| ==> idx[k] < |s|
    requires forall k, l :: 0 <= k < l < |idx| ==> idx[k] < idx[l]
    ensures Distinct(Project(s, idx))
  {
  }

  /** The labels run_queries gives its own columns. */
  const RESERVED: set<string> := set x | x in ["Total"] + QueryNames()

  /** The header Assemble builds, piece by piece. */
  lemma AssembleHeader(f: Frame)
    requires WellFormed(f) && TotalFailure(f.columns).None?
    ensures Assemble(f).columns == ["Total"] + QueryNames() + Project(f.columns, NonExam(f.columns))
  {
    assert Assemble(f).columns == AssembledHeader(f.columns, NonExam(f.columns));
  }

  /**
   * With distinct raw labels none of which is a reserved label, run_queries
   * fails only where total fails.
   */
  lemma RunQueriesSucceeds(f: Frame)
    requires WellFormed(f) && TotalFailure(f.columns).None?
    requires Distinct(f.columns)
    requires forall j :: 0 <= j < |f.columns| && !IsExam(f.columns[j]) ==> f.columns[j] !in RESERVED
    ensures RunQueries(f).Ok?
  {
    var keep := NonExam(f.columns);
    ProjectDistinct(f.columns, keep);
    var tail := Project(f.columns, keep);
    assert forall k :: 0 <= k < |tail| ==> tail[k] !in RESERVED;
    HeaderDistinct(["Total"] + QueryNames(), tail);
    AssembleHeader(f);
    var a := Assemble(f);
    ProjectDistinct(a.columns, KeptColumns(a));
  }

  lemma HeaderDistinct(head: seq<string>, tail: seq<string>)
    requires head == ["Total"] + QueryNames()
    requires Distinct(tail) && forall k :: 0 <= k < |tail| ==> tail[k] !in RESERVED
    ensures Distinct(head + tail)
  {
    assert forall k :: 0 <= k < |head| ==> head[k] in RESERVED;
    assert Distinct(head);
  }
}
