/**
 * The score table (a pandas DataFrame of one row per student) and the pruning
 * of assignments nobody has scored (remove_all_0s, to_frame).
 */
module Frames {
  import opened Outcomes
  import opened Columns
  import opened Lex

  /** One student's row: the index label and the values in column order. */
  datatype Row = Row(student: string, values: seq<real>)

  datatype Frame = Frame(columns: seq<string>, rows: seq<Row>)

  /** Every row has one value per column. */
  predicate WellFormed(f: Frame)
  {
    forall i :: 0 <= i < |f.rows| ==> |f.rows[i].values| == |f.columns|
  }

  predicate Distinct(s: seq<string>)
  {
    forall i, j :: 0 <= i < j < |s| ==> s[i] != s[j]
  }

  /** Column `j` read down the rows. */
  function Column(f: Frame, j: nat): seq<real>
    requires WellFormed(f) && j < |f.columns|
  {
    seq(|f.rows|, i requires 0 <= i < |f.rows| => f.rows[i].values[j])
  }

  /** `agg('max')` of one column. */
  function SeqMax(s: seq<real>): (m: real)
    requires |s| > 0
    ensures m in s
    ensures forall i :: 0 <= i < |s| ==> s[i] <= m
  {
    if |s| == 1 then s[0]
    else
      var m := SeqMax(s[1..]);
      if s[0] >= m then s[0] else m
  }

  /**
   * Column `j` has maximum 0. A table without rows has no maximum (pandas
   * yields NaN, which is not equal to 0), so nothing is all-zero there.
   */
  predicate AllZero(f: Frame, j: nat)
    requires WellFormed(f) && j < |f.columns|
  {
    |f.rows| > 0 && SeqMax(Column(f, j)) == 0.0
  }

  /** The labels handed to `drop`: those of the all-zero columns. */
  function ZeroLabels(f: Frame): set<string>
    requires WellFormed(f)
  {
    set j | 0 <= j < |f.columns| && AllZero(f, j) :: f.columns[j]
  }

  /** The positions below `n` that `keep` accepts, in increasing order. */
  function Select(n: nat, keep: nat -> bool): (r: seq<nat>)
    ensures forall k :: 0 <= k < |r| ==> r[k] < n && keep(r[k])
    ensures forall j :: 0 <= j < n && keep(j) ==> j in r
    ensures forall k, l :: 0 <= k < l < |r| ==> r[k] < r[l]
  {
    if n == 0 then [] else Select(n - 1, keep) + (if keep(n - 1) then [n - 1] else [])
  }

  function Project<T>(s: seq<T>, idx: seq<nat>): (r: seq<T>)
    requires forall k :: 0 <= k < |idx| ==> idx[k] < |s|
    ensures |r| == |idx|
  {
    seq(|idx|, k requires 0 <= k < |idx| => s[idx[k]])
  }

  /** The positions of the columns `drop` leaves: every column whose label is not an all-zero label. */
  function KeptColumns(f: Frame): (kept: seq<nat>)
    requires WellFormed(f)
    ensures forall k :: 0 <= k < |kept| ==> kept[k] < |f.columns|
    ensures forall k, l :: 0 <= k < l < |kept| ==> kept[k] < kept[l]
    ensures forall j :: 0 <= j < |f.columns| ==> (j in kept <==> f.columns[j] !in ZeroLabels(f))
  {
    var zeros := ZeroLabels(f);
    Select(|f.columns|, (j: nat) => j < |f.columns| && f.columns[j] !in zeros)
  }

  /** Restricts every row, and the header, to the given column positions. */
  function Restrict(f: Frame, kept: seq<nat>): (g: Frame)
    requires WellFormed(f)
    requires forall k :: 0 <= k < |kept| ==> kept[k] < |f.columns|
    ensures WellFormed(g) && |g.columns| == |kept| && |g.rows| == |f.rows|
    ensures g.columns == Project(f.columns, kept)
    ensures forall i :: 0 <= i < |g.rows| ==>
      g.rows[i] == Row(f.rows[i].student, Project(f.rows[i].values, kept))
  {
    Frame(Project(f.columns, kept),
          seq(|f.rows|, i requires 0 <= i < |f.rows| => Row(f.rows[i].student, Project(f.rows[i].values, kept))))
  }

  lemma RestrictColumn(f: Frame, kept: seq<nat>, k: nat)
    requires WellFormed(f)
    requires forall k :: 0 <= k < |kept| ==> kept[k] < |f.columns|
    requires k < |kept|
    ensures Column(Restrict(f, kept), k) == Column(f, kept[k])
  {
  }

  /**
   * remove_all_0s: drops the all-zero columns. The remaining columns keep their
   * order and values, every row keeps its student, and no all-zero column remains.
   */
  function RemoveAllZeros(f: Frame): (g: Frame)
    requires WellFormed(f)
    ensures WellFormed(g) && |g.rows| == |f.rows|
    ensures g == Restrict(f, KeptColumns(f))
    ensures forall k :: 0 <= k < |g.columns| ==> !AllZero(g, k)
  {
    var kept := KeptColumns(f);
    var g := Restrict(f, kept);
    forall k | 0 <= k < |g.columns| ensures !AllZero(g, k) {
      RestrictColumn(f, kept, k);
      assert f.columns[kept[k]] !in ZeroLabels(f);
    }
    g
  }

  /** With distinct labels, exactly the columns whose maximum is 0 are dropped. */
  lemma RemoveAllZerosKeepsExactly(f: Frame, j: nat)
    requires WellFormed(f) && Distinct(f.columns) && j < |f.columns|
    ensures j in KeptColumns(f) <==> !AllZero(f, j)
  {
  }

  /** Pruning a pruned table changes nothing. */
  lemma RemoveAllZerosIdempotent(f: Frame)
    requires WellFormed(f)
    ensures RemoveAllZeros(RemoveAllZeros(f)) == RemoveAllZeros(f)
  {
    var g := RemoveAllZeros(f);
    assert ZeroLabels(g) == {};
    var zeros := ZeroLabels(g);
    SelectEverything(|g.columns|, (j: nat) => j < |g.columns| && g.columns[j] !in zeros);
    var h := Restrict(g, KeptColumns(g));
    assert h.columns == g.columns;
    forall i | 0 <= i < |g.rows| ensures h.rows[i] == g.rows[i] {
      assert h.rows[i].values == g.rows[i].values;
    }
  }

  /** Selecting with a test every position passes yields 0, 1, ..., n-1. */
  lemma {:induction false} SelectEverything(n: nat, keep: nat -> bool)
    requires forall j: nat :: j < n ==> keep(j)
    ensures Select(n, keep) == seq(n, j => j)
  {
    if n > 0 {
      SelectEverything(n - 1, keep);
      assert seq(n, j => j) == seq(n - 1, j => j) + [n - 1];
    }
  }

  /** The table before pruning: one sanitised row per student, in input order. */
  function Unpruned(cols: seq<string>, all: AllScores): (f: Frame)
    requires forall i :: 0 <= i < |all| ==> all[i].1.Keys <= Elements(cols)
    ensures WellFormed(f) && f.columns == cols && |f.rows| == |all|
  {
    assert forall i, k :: 0 <= i < |all| && k in all[i].1 ==> k in Elements(cols);
    Frame(cols, seq(|all|, i requires 0 <= i < |all| => Row(all[i].0, Sanitized(cols, all[i].1))))
  }

  /** The scores every student got for assignment `c`, normalised. */
  function Scores(all: AllScores, c: string): seq<real>
    requires forall i :: 0 <= i < |all| ==> c in all[i].1
  {
    seq(|all|, i requires 0 <= i < |all| => Normalize(all[i].1[c]))
  }

  /**
   * to_frame: the normalised score table. It fails exactly when get_columns does;
   * otherwise it has one row per student in input order, sorted columns, each cell
   * the normalised record of that student and assignment, and it keeps exactly
   * the assignments whose best score is not 0.
   */
  function ToFrame(all: AllScores): (r: Result<Frame>)
    ensures r.Err? <==> GetColumns(all).Err?
    ensures r.Err? ==> r.error == GetColumns(all).error
    ensures r.Ok? ==> WellFormed(r.value) && |r.value.rows| == |all| && StrictlySorted(r.value.columns)
    ensures r.Ok? ==> forall i :: 0 <= i < |all| ==> r.value.rows[i].student == all[i].0
    ensures r.Ok? ==> forall i, k :: 0 <= i < |all| && 0 <= k < |r.value.columns| ==>
      r.value.columns[k] in all[i].1 && r.value.rows[i].values[k] == Normalize(all[i].1[r.value.columns[k]])
    ensures r.Ok? ==> forall c :: c in all[0].1 ==>
      (c in r.value.columns <==> SeqMax(Scores(all, c)) != 0.0)
  {
    match GetColumns(all)
    case Err(e) => Err(e)
    case Ok(cols) =>
      var f := Unpruned(cols, all);
      UnprunedCells(all, cols);
      forall c | c in all[0].1 ensures c in RemoveAllZeros(f).columns <==> SeqMax(Scores(all, c)) != 0.0 {
        UnprunedKeeps(all, cols, c);
      }
      ProjectStrictlySorted(cols, KeptColumns(f));
      Ok(RemoveAllZeros(f))
  }

  /** The cells of the pruned table are the normalised records. */
  lemma UnprunedCells(all: AllScores, cols: seq<string>)
    requires StrictlySorted(cols)
    requires forall i :: 0 <= i < |all| ==> Elements(cols) == all[i].1.Keys
    ensures var g := RemoveAllZeros(Unpruned(cols, all));
      forall i, k :: 0 <= i < |all| && 0 <= k < |g.columns| ==>
        g.columns[k] in all[i].1 && g.rows[i].values[k] == Normalize(all[i].1[g.columns[k]])
  {
    var f := Unpruned(cols, all);
    var kept := KeptColumns(f);
    forall k | 0 <= k < |kept| ensures IndexOf(cols, cols[kept[k]]) == kept[k] {
      IndexOfStrictlySorted(cols, kept[k]);
    }
    forall i, k | 0 <= i < |all| && 0 <= k < |kept| ensures cols[kept[k]] in all[i].1 {
      assert cols[kept[k]] in Elements(cols);
    }
  }

  /** An assignment survives pruning exactly when its best normalised score is not 0. */
  lemma UnprunedKeeps(all: AllScores, cols: seq<string>, c: string)
    requires |all| > 0 && StrictlySorted(cols)
    requires forall i :: 0 <= i < |all| ==> Elements(cols) == all[i].1.Keys
    requires c in all[0].1
    ensures c in RemoveAllZeros(Unpruned(cols, all)).columns <==> SeqMax(Scores(all, c)) != 0.0
  {
    var f := Unpruned(cols, all);
    assert c in Elements(cols);
    var j := IndexOf(cols, c);
    UnprunedColumn(all, cols, j);
    assert Distinct(cols) by { StrBelowIsStrictTotalOrder(); }
    RemoveAllZerosKeepsExactly(f, j);
    KeptLabel(f, j);
  }

  /** Column `j` of the unpruned table lists every student's score for `cols[j]`. */
  lemma UnprunedColumn(all: AllScores, cols: seq<string>, j: nat)
    requires StrictlySorted(cols) && j < |cols|
    requires forall i :: 0 <= i < |all| ==> Elements(cols) == all[i].1.Keys
    ensures forall i :: 0 <= i < |all| ==> cols[j] in all[i].1
    ensures Column(Unpruned(cols, all), j) == Scores(all, cols[j])
  {
    assert cols[j] in Elements(cols);
    IndexOfStrictlySorted(cols, j);
    var f := Unpruned(cols, all);
    forall i | 0 <= i < |all| ensures Column(f, j)[i] == Scores(all, cols[j])[i] {
      assert f.rows[i].values == Sanitized(cols, all[i].1);
    }
  }

  /** With distinct labels, a label survives pruning exactly when its position is kept. */
  lemma KeptLabel(f: Frame, j: nat)
    requires WellFormed(f) && Distinct(f.columns) && j < |f.columns|
    ensures f.columns[j] in RemoveAllZeros(f).columns <==> j in KeptColumns(f)
  {
    var g := RemoveAllZeros(f);
    var kept := KeptColumns(f);
    if f.columns[j] in g.columns {
      var k :| 0 <= k < |g.columns| && g.columns[k] == f.columns[j];
      assert kept[k] == j;
    }
    if j in kept {
      var k :| 0 <= k < |kept| && kept[k] == j;
      assert g.columns[k] == f.columns[j];
    }
  }

  lemma ProjectStrictlySorted(s: seq<string>, idx: seq<nat>)
    requires StrictlySorted(s)
    requires forall k :: 0 <= k < |idx| ==> idx[k] < |s|
    requires forall k, l :: 0 <= k < l < |idx| ==> idx[k] < idx[l]
    ensures StrictlySorted(Project(s, idx))
  {
  }
}
