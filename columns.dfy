/**
 * Column discovery and score normalisation (get_columns, sanitize_scores).
 * A student's raw scores map each assignment to a record of sub-fields
 * ("total", "effort", "composition", "revision"); the whole input is the
 * students with their raw scores in dictionary order.
 */
module Columns {
  import opened Outcomes
  import opened Lex

  type RawRecord = map<string, real>
  type StudentScores = map<string, RawRecord>
  type AllScores = seq<(string, StudentScores)>

  function Elements(s: seq<string>): set<string>
  {
    set c | c in s
  }

  /** Every column sorts strictly before the next one: sorted and free of repeats. */
  predicate StrictlySorted(s: seq<string>)
  {
    forall i, j :: 0 <= i < j < |s| ==> StrBelow(s[i], s[j])
  }

  /** `v.get(field, 0)` */
  function Get(rec: RawRecord, field: string): real
  {
    if field in rec then rec[field] else 0.0
  }

  function Max(x: real, y: real): real
  {
    if x >= y then x else y
  }

  /**
   * The scalar score of one raw record: the better of the holistic and the effort
   * track, plus the better of the composition and the revision track.
   */
  function Normalize(rec: RawRecord): (v: real)
    ensures v >= Get(rec, "total") + Get(rec, "composition")
    ensures v >= Get(rec, "total") + Get(rec, "revision")
    ensures v >= Get(rec, "effort") + Get(rec, "composition")
    ensures v >= Get(rec, "effort") + Get(rec, "revision")
    ensures v == Get(rec, "total") + Get(rec, "composition") || v == Get(rec, "total") + Get(rec, "revision")
         || v == Get(rec, "effort") + Get(rec, "composition") || v == Get(rec, "effort") + Get(rec, "revision")
    ensures (forall f :: f in rec ==> rec[f] >= 0.0) ==> v >= 0.0
  {
    Max(Get(rec, "total"), Get(rec, "effort")) + Max(Get(rec, "composition"), Get(rec, "revision"))
  }

  /** Python's `cols.index(k)`: the first position holding `k`. */
  function IndexOf(cols: seq<string>, k: string): (i: nat)
    requires k in cols
    ensures i < |cols| && cols[i] == k
    ensures forall j :: 0 <= j < i ==> cols[j] != k
  {
    if cols[0] == k then 0 else 1 + IndexOf(cols[1..], k)
  }

  lemma IndexOfStrictlySorted(cols: seq<string>, i: nat)
    requires StrictlySorted(cols) && i < |cols|
    ensures IndexOf(cols, cols[i]) == i
  {
    StrBelowIsStrictTotalOrder();
  }

  /**
   * The vector sanitize_scores returns: the normalised record of every assignment
   * at the position `cols.index` gives it, zero everywhere else.
   */
  function Sanitized(cols: seq<string>, scores: StudentScores): (r: seq<real>)
    requires forall k :: k in scores ==> k in cols
    ensures |r| == |cols|
    ensures forall k :: k in scores ==> r[IndexOf(cols, k)] == Normalize(scores[k])
    ensures forall i :: 0 <= i < |cols| && cols[i] !in scores ==> r[i] == 0.0
  {
    seq(|cols|, i requires 0 <= i < |cols| =>
      if cols[i] in scores && IndexOf(cols, cols[i]) == i then Normalize(scores[cols[i]]) else 0.0)
  }

  /** sanitize_scores: fills a zero vector, one assignment of the student at a time. */
  method SanitizeScores(cols: seq<string>, scores: StudentScores) returns (results: seq<real>)
    requires forall k :: k in scores ==> k in cols
    ensures results == Sanitized(cols, scores)
  {
    var a := new real[|cols|](_ => 0.0);
    var pending := scores.Keys;
    while pending != {}
      invariant pending <= scores.Keys
      invariant forall i :: 0 <= i < a.Length ==>
        a[i] == if cols[i] in scores && cols[i] !in pending && IndexOf(cols, cols[i]) == i
                then Normalize(scores[cols[i]]) else 0.0
      decreases pending
    {
      var k :| k in pending;
      var j := IndexOf(cols, k);
      a[j] := Normalize(scores[k]);
      pending := pending - {k};
    }
    results := a[..];
  }

  /** A finite non-empty set of strings has a least element. */
  lemma {:induction false} HasLeast(s: set<string>)
    requires s != {}
    ensures exists m :: m in s && forall y :: y in s ==> !StrBelow(y, m)
    decreases s
  {
    var x :| x in s;
    StrBelowIrreflexive(x);
    if s == {x} {
      assert forall y :: y in s ==> y == x;
    } else {
      HasLeast(s - {x});
      var m :| m in s - {x} && forall y :: y in s - {x} ==> !StrBelow(y, m);
      if StrBelow(x, m) {
        forall y | y in s ensures !StrBelow(y, x) {
          StrBelowTransitive(y, x, m);
        }
      } else {
        assert forall y :: y in s ==> !StrBelow(y, m);
      }
    }
  }

  /** Python's `sorted` applied to a set of keys. */
  function SortedKeys(s: set<string>): (r: seq<string>)
    ensures Elements(r) == s
    ensures StrictlySorted(r)
    decreases s
  {
    if s == {} then []
    else
      StrBelowIsStrictTotalOrder();
      HasLeast(s);
      var m :| m in s && forall y :: y in s ==> !StrBelow(y, m);
      var rest := SortedKeys(s - {m});
      assert forall j :: 0 <= j < |rest| ==> rest[j] in s - {m};
      assert Elements([m] + rest) == {m} + Elements(rest);
      [m] + rest
  }

  /**
   * get_columns: the one sorted tuple of assignment names that every student has;
   * fails when there is no student or when two students' key sets differ.
   */
  function GetColumns(all: AllScores): (r: Result<seq<string>>)
    ensures r.Ok? <==> |all| > 0 && forall i :: 0 <= i < |all| ==> all[i].1.Keys == all[0].1.Keys
    ensures |all| == 0 ==> r == Err(NoStudents)
    ensures r.Err? && |all| > 0 ==> r == Err(InconsistentColumns)
    ensures r.Ok? ==> StrictlySorted(r.value)
    ensures r.Ok? ==> forall i :: 0 <= i < |all| ==> Elements(r.value) == all[i].1.Keys
  {
    if |all| == 0 then Err(NoStudents)
    else if exists i :: 0 <= i < |all| && all[i].1.Keys != all[0].1.Keys then Err(InconsistentColumns)
    else Ok(SortedKeys(all[0].1.Keys))
  }
}
