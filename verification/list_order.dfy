/** Python's rich comparison of two integer lists (`a < b`, `a <= b`,
    `a > b`, `a >= b`): find the first position where the lists differ and
    compare the items there; if one list is a prefix of the other, compare
    the lengths instead. */
module ListOrder {

  datatype CmpOp = Lt | Le | Gt | Ge

  /** The comparison operator `op` applied to two integers. */
  function CompareInts(x: int, y: int, op: CmpOp): bool
  {
    match op
    case Lt => x < y
    case Le => x <= y
    case Gt => x > y
    case Ge => x >= y
  }

  /** `a op b` on Python lists. */
  function ListCompare(a: seq<int>, b: seq<int>, op: CmpOp): bool
    decreases |a|
  {
    if |a| == 0 || |b| == 0 then CompareInts(|a|, |b|, op)
    else if a[0] != b[0] then CompareInts(a[0], b[0], op)
    else ListCompare(a[1..], b[1..], op)
  }

  /** The comparison is decided by the items at the first position where
      the lists differ, or by the lengths when one is a prefix of the other. */
  lemma {:induction false} ListCompareDecidedAtFirstDifference(a: seq<int>, b: seq<int>, op: CmpOp)
    ensures forall i :: 0 <= i < |a| && i < |b| && a[..i] == b[..i] && a[i] != b[i] ==>
              ListCompare(a, b, op) == CompareInts(a[i], b[i], op)
    ensures IsPrefix(a, b) || IsPrefix(b, a) ==> ListCompare(a, b, op) == CompareInts(|a|, |b|, op)
    decreases |a|
  {
    if |a| > 0 && |b| > 0 && a[0] == b[0] {
      ListCompareDecidedAtFirstDifference(a[1..], b[1..], op);
      forall i | 0 < i < |a| && i < |b| && a[..i] == b[..i]
        ensures a[1..][..i - 1] == b[1..][..i - 1]
      {
        assert a[1..][..i - 1] == a[..i][1..];
        assert b[1..][..i - 1] == b[..i][1..];
      }
      assert IsPrefix(a, b) ==> IsPrefix(a[1..], b[1..]);
      assert IsPrefix(b, a) ==> IsPrefix(b[1..], a[1..]);
    }
  }

  /** `a` is an initial segment of `b`. */
  predicate IsPrefix(a: seq<int>, b: seq<int>)
  {
    |a| <= |b| && a == b[..|a|]
  }

  /** `a <= b` holds exactly when `a < b` or the lists are equal. */
  lemma {:induction false} LeIsLtOrEqual(a: seq<int>, b: seq<int>)
    ensures ListCompare(a, b, Le) <==> ListCompare(a, b, Lt) || a == b
    decreases |a|
  {
    if |a| > 0 && |b| > 0 && a[0] == b[0] {
      LeIsLtOrEqual(a[1..], b[1..]);
      assert a == [a[0]] + a[1..] && b == [b[0]] + b[1..];
    }
  }

  /** `a > b` is `b < a`. */
  lemma {:induction false} GtIsFlippedLt(a: seq<int>, b: seq<int>)
    ensures ListCompare(a, b, Gt) <==> ListCompare(b, a, Lt)
    decreases |a|
  {
    if |a| > 0 && |b| > 0 && a[0] == b[0] {
      GtIsFlippedLt(a[1..], b[1..]);
    }
  }

  /** `a >= b` is `b <= a`. */
  lemma {:induction false} GeIsFlippedLe(a: seq<int>, b: seq<int>)
    ensures ListCompare(a, b, Ge) <==> ListCompare(b, a, Le)
    decreases |a|
  {
    if |a| > 0 && |b| > 0 && a[0] == b[0] {
      GeIsFlippedLe(a[1..], b[1..]);
    }
  }

  /** Exactly one of `a < b`, `a == b`, `b < a` holds. */
  lemma {:induction false} LtTrichotomy(a: seq<int>, b: seq<int>)
    ensures ListCompare(a, b, Lt) || a == b || ListCompare(b, a, Lt)
    ensures !(ListCompare(a, b, Lt) && a == b)
    ensures !(ListCompare(a, b, Lt) && ListCompare(b, a, Lt))
    ensures !(a == b && ListCompare(b, a, Lt))
    decreases |a|
  {
    if |a| > 0 && |b| > 0 && a[0] == b[0] {
      LtTrichotomy(a[1..], b[1..]);
      assert a == [a[0]] + a[1..] && b == [b[0]] + b[1..];
    }
  }

  /** `<` on lists is transitive. */
  lemma {:induction false} LtTransitive(a: seq<int>, b: seq<int>, c: seq<int>)
    requires ListCompare(a, b, Lt) && ListCompare(b, c, Lt)
    ensures ListCompare(a, c, Lt)
    decreases |a|
  {
    if |a| > 0 && |b| > 0 && |c| > 0 && a[0] == b[0] && b[0] == c[0] {
      LtTransitive(a[1..], b[1..], c[1..]);
    }
  }
}
