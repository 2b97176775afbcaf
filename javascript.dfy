/** The JavaScript operators the widgets compute with: `%` on numbers, `Array.prototype.at` and `indexOf`. */
module JavaScript {
  import opened Options

  /**
   * JavaScript's `a % b` for `b > 0`: the remainder takes the sign of the dividend, so
   * `-1 % 3` is -1 where the Euclidean remainder is 2. (`-0` and `0` are the same integer.)
   */
  function Rem(a: int, b: int): (r: int)
    requires b > 0
    ensures -b < r < b
    ensures a >= 0 ==> r >= 0
    ensures a <= 0 ==> r <= 0
    decreases if a < 0 then -a else a
  {
    if -b < a < b then a
    else if a >= b then Rem(a - b, b)
    else Rem(a + b, b)
  }

  /** `Array.prototype.at(k)`: a negative index counts from the end; out of range is `undefined`. */
  function At<T>(s: seq<T>, k: int): (r: Option<T>)
    ensures r.Some? <==> -|s| <= k < |s|
  {
    if 0 <= k < |s| then Some(s[k])
    else if -|s| <= k < 0 then Some(s[|s| + k])
    else None
  }

  /** `Array.prototype.indexOf`: the first position holding `x`, or -1. */
  function IndexOf<T(==)>(s: seq<T>, x: T): (r: int)
    ensures -1 <= r < |s|
    ensures r == -1 <==> x !in s
    ensures r >= 0 ==> s[r] == x && forall j :: 0 <= j < r ==> s[j] != x
    decreases |s|
  {
    if s == [] then -1
    else if s[0] == x then 0
    else
      var rest := IndexOf(s[1..], x);
      if rest == -1 then -1 else rest + 1
  }

  lemma MulAtLeast(n: int, k: int)
    requires n > 0 && k >= 1
    ensures n * k >= n
  {
  }

  lemma MulDistributes(n: int, a: int, b: int)
    ensures n * a - n * b == n * (a - b)
  {
  }

  /** The Euclidean remainder is the only `r` in `[0, n)` with `x == n * q + r`. */
  lemma ModUnique(x: int, n: int, q: int, r: int)
    requires n > 0 && 0 <= r < n && x == n * q + r
    ensures x % n == r
  {
    var q', r' := x / n, x % n;
    assert x == n * q' + r';
    if q > q' {
      MulDistributes(n, q, q');
      MulAtLeast(n, q - q');
    } else if q < q' {
      MulDistributes(n, q', q);
      MulAtLeast(n, q' - q);
    }
  }

  /** Adding the divisor does not change the Euclidean remainder. */
  lemma ModShift(x: int, b: int)
    requires b > 0
    ensures (x + b) % b == x % b
  {
    var q, r := x / b, x % b;
    assert x == b * q + r;
    assert x + b == b * (q + 1) + r;
    ModUnique(x + b, b, q + 1, r);
  }

  /** The JavaScript remainder agrees with the Euclidean one modulo `b`. */
  lemma {:induction false} RemCongruent(a: int, b: int)
    requires b > 0
    ensures Rem(a, b) % b == a % b
    decreases if a < 0 then -a else a
  {
    if -b < a < b {
    } else if a >= b {
      RemCongruent(a - b, b);
      ModShift(a - b, b);
    } else {
      RemCongruent(a + b, b);
      ModShift(a, b);
    }
  }

  /** `at(k)` on an index in range reads position `k mod n`. */
  lemma AtEuclidean<T>(s: seq<T>, k: int)
    requires -|s| <= k < |s|
    ensures At(s, k) == Some(s[k % |s|])
  {
    if k >= 0 {
      ModUnique(k, |s|, 0, k);
    } else {
      ModUnique(k, |s|, -1, |s| + k);
    }
  }

  /** Whatever the dividend, `at(a % n)` on a non-empty array reads position `a mod n`. */
  lemma AtRem<T>(s: seq<T>, a: int)
    requires |s| > 0
    ensures At(s, Rem(a, |s|)) == Some(s[a % |s|])
  {
    RemCongruent(a, |s|);
    AtEuclidean(s, Rem(a, |s|));
  }
}
