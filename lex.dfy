/**
 * Lexicographic order on sequences, over an element order given as a function.
 * Python's string comparison is this order over characters; pandas' sort over
 * several columns is this order over the numbers of a row.
 */
module Lex {

  /** `lt` is irreflexive, transitive and total: a strict total order. */
  ghost predicate StrictTotalOrder<T(!new)>(lt: (T, T) -> bool)
  {
    (forall x :: !lt(x, x)) &&
    (forall x, y, z :: lt(x, y) && lt(y, z) ==> lt(x, z)) &&
    (forall x, y :: x == y || lt(x, y) || lt(y, x))
  }

  /** `a` sorts strictly before `b`: at the first difference `a` is smaller, or `a` is a proper prefix of `b`. */
  predicate Less<T(==)>(a: seq<T>, b: seq<T>, lt: (T, T) -> bool)
    decreases |a|
  {
    if |a| == 0 then |b| > 0
    else if |b| == 0 then false
    else lt(a[0], b[0]) || (a[0] == b[0] && Less(a[1..], b[1..], lt))
  }

  lemma {:induction false} LessIrreflexive<T(!new)>(a: seq<T>, lt: (T, T) -> bool)
    requires StrictTotalOrder(lt)
    ensures !Less(a, a, lt)
    decreases |a|
  {
    if |a| > 0 {
      LessIrreflexive(a[1..], lt);
    }
  }

  lemma {:induction false} LessTransitive<T(!new)>(a: seq<T>, b: seq<T>, c: seq<T>, lt: (T, T) -> bool)
    requires StrictTotalOrder(lt)
    requires Less(a, b, lt) && Less(b, c, lt)
    ensures Less(a, c, lt)
    decreases |a|
  {
    if |a| > 0 && a[0] == b[0] && b[0] == c[0] {
      LessTransitive(a[1..], b[1..], c[1..], lt);
    }
  }

  lemma {:induction false} LessTotal<T(!new)>(a: seq<T>, b: seq<T>, lt: (T, T) -> bool)
    requires StrictTotalOrder(lt)
    ensures a == b || Less(a, b, lt) || Less(b, a, lt)
    decreases |a|
  {
    if |a| > 0 && |b| > 0 && a[0] == b[0] {
      LessTotal(a[1..], b[1..], lt);
      if a[1..] == b[1..] {
        assert a == [a[0]] + a[1..] && b == [b[0]] + b[1..];
      }
    }
  }

  function CharLt(x: char, y: char): bool { x < y }

  function RealLt(x: real, y: real): bool { x < y }

  lemma CharLtIsStrictTotalOrder()
    ensures StrictTotalOrder(CharLt)
  {
  }

  lemma RealLtIsStrictTotalOrder()
    ensures StrictTotalOrder(RealLt)
  {
  }

  /** Python's `a < b` on strings: code point by code point. */
  predicate StrBelow(a: string, b: string)
  {
    Less(a, b, CharLt)
  }

  /** Every facet of a strict total order for StrBelow. */
  lemma StrBelowIsStrictTotalOrder()
    ensures forall a :: !StrBelow(a, a)
    ensures forall a, b, c :: StrBelow(a, b) && StrBelow(b, c) ==> StrBelow(a, c)
    ensures forall a, b :: a == b || StrBelow(a, b) || StrBelow(b, a)
  {
    CharLtIsStrictTotalOrder();
    forall a ensures !StrBelow(a, a) {
      LessIrreflexive(a, CharLt);
    }
    forall a, b, c | StrBelow(a, b) && StrBelow(b, c) ensures StrBelow(a, c) {
      LessTransitive(a, b, c, CharLt);
    }
    forall a, b ensures a == b || StrBelow(a, b) || StrBelow(b, a) {
      LessTotal(a, b, CharLt);
    }
  }

  lemma StrBelowIrreflexive(a: string)
    ensures !StrBelow(a, a)
  {
    CharLtIsStrictTotalOrder();
    LessIrreflexive(a, CharLt);
  }

  lemma StrBelowTransitive(a: string, b: string, c: string)
    ensures StrBelow(a, b) && StrBelow(b, c) ==> StrBelow(a, c)
  {
    CharLtIsStrictTotalOrder();
    if StrBelow(a, b) && StrBelow(b, c) {
      LessTransitive(a, b, c, CharLt);
    }
  }

  /** The order of pandas' sort_values over all columns, ascending. */
  predicate RowBelow(a: seq<real>, b: seq<real>)
  {
    Less(a, b, RealLt)
  }

  lemma RowBelowIsStrictTotalOrder()
    ensures forall a :: !RowBelow(a, a)
    ensures forall a, b, c :: RowBelow(a, b) && RowBelow(b, c) ==> RowBelow(a, c)
    ensures forall a, b :: a == b || RowBelow(a, b) || RowBelow(b, a)
  {
    RealLtIsStrictTotalOrder();
    forall a ensures !RowBelow(a, a) {
      LessIrreflexive(a, RealLt);
    }
    forall a, b, c | RowBelow(a, b) && RowBelow(b, c) ensures RowBelow(a, c) {
      LessTransitive(a, b, c, RealLt);
    }
    forall a, b ensures a == b || RowBelow(a, b) || RowBelow(b, a) {
      LessTotal(a, b, RealLt);
    }
  }
}
