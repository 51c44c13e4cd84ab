/** lab2-tree/public.h `string_cmp`: byte by byte as unsigned values, the terminator smallest. */
module Order {
  import opened Strings

  /** The answer of string_cmp: -1, 0 or 1. */
  function StringCmp(a: Str, b: Str): int {
    if a == [] then (if b == [] then 0 else -1)
    else if b == [] then 1
    else if a[0] < b[0] then -1
    else if a[0] > b[0] then 1
    else StringCmp(a[1..], b[1..])
  }

  predicate Less(a: Str, b: Str) {
    StringCmp(a, b) < 0
  }

  /** The loop of string_cmp, which runs over the two strings up to their terminators. */
  method StringCmpLoop(a: Str, b: Str) returns (r: int)
    requires NulFree(a) && NulFree(b)
    ensures r == StringCmp(a, b)
  {
    var i := 0;
    assert a[0..] == a && b[0..] == b;
    while At(a, i) != 0 || At(b, i) != 0
      invariant 0 <= i <= |a| && i <= |b|
      invariant StringCmp(a, b) == StringCmp(a[i..], b[i..])
      decreases |a| - i
    {
      if At(a, i) < At(b, i) {
        return -1;
      } else if At(a, i) > At(b, i) {
        return 1;
      }
      i := i + 1;
    }
    return 0;
  }

  lemma {:induction false} CmpZeroIsEqual(a: Str, b: Str)
    ensures StringCmp(a, b) == 0 <==> a == b
  {
    if a != [] && b != [] {
      CmpZeroIsEqual(a[1..], b[1..]);
      assert a == [a[0]] + a[1..] && b == [b[0]] + b[1..];
    }
  }

  lemma {:induction false} CmpAntisymmetric(a: Str, b: Str)
    ensures StringCmp(b, a) == -StringCmp(a, b)
    ensures -1 <= StringCmp(a, b) <= 1
  {
    if a != [] && b != [] {
      CmpAntisymmetric(a[1..], b[1..]);
    }
  }

  lemma {:induction false} LessTransitive(a: Str, b: Str, c: Str)
    requires Less(a, b) && Less(b, c)
    ensures Less(a, c)
  {
    if a != [] && a[0] == b[0] == c[0] {
      LessTransitive(a[1..], b[1..], c[1..]);
    }
  }

  /** string_cmp is a strict total order on strings. */
  lemma TotalOrder(a: Str, b: Str)
    ensures (if a == b then 1 else 0) + (if Less(a, b) then 1 else 0) + (if Less(b, a) then 1 else 0) == 1
    ensures StringCmp(a, b) == if a == b then 0 else if Less(a, b) then -1 else 1
  {
    CmpZeroIsEqual(a, b);
    CmpAntisymmetric(a, b);
  }

  /** Transitivity when one of the two steps may be an equality. */
  lemma LessLeqTransitive(a: Str, b: Str, c: Str)
    requires a == b || Less(a, b)
    requires b == c || Less(b, c)
    ensures a == c || Less(a, c)
    ensures a != b || b != c ==> Less(a, c)
  {
    if a != b && b != c {
      LessTransitive(a, b, c);
    }
  }

  /** The first differing byte decides. */
  lemma {:induction false} FirstDifference(a: Str, b: Str, k: nat)
    requires k < |a| && k < |b| && a[..k] == b[..k] && a[k] < b[k]
    ensures StringCmp(a, b) == -1
    decreases k
  {
    if k > 0 {
      assert a[0] == a[..k][0] == b[..k][0] == b[0];
      assert a[1..][..k - 1] == a[..k][1..] && b[1..][..k - 1] == b[..k][1..];
      FirstDifference(a[1..], b[1..], k - 1);
    }
  }

  /** A common prefix does not matter. */
  lemma {:induction false} CommonPrefix(p: Str, a: Str, b: Str)
    ensures StringCmp(p + a, p + b) == StringCmp(a, b)
  {
    if p == [] {
      assert p + a == a && p + b == b;
    } else {
      assert (p + a)[1..] == p[1..] + a && (p + b)[1..] == p[1..] + b;
      CommonPrefix(p[1..], a, b);
    }
  }
}
