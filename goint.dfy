/** Go's 64-bit machine integers (`int`, `int64`, `uint`, on a 64-bit target)
    and the two operations of theirs the pagination code relies on:
    two's-complement conversion and truncating division. */
module GoInt {

  const TwoTo64: int := 0x1_0000_0000_0000_0000
  const MinInt64: int := -0x8000_0000_0000_0000
  const MaxInt64: int := 0x7fff_ffff_ffff_ffff
  const MaxUint64: int := 0xffff_ffff_ffff_ffff

  /** Go `int64`, and `int` on a 64-bit target. */
  type Int64 = x: int | MinInt64 <= x <= MaxInt64

  /** Go `uint` on a 64-bit target. */
  type Uint64 = x: int | 0 <= x <= MaxUint64

  function Abs(x: int): (r: nat)
    ensures r == x || r == -x
  {
    if x < 0 then -x else x
  }

  /** The `int64` that Go's conversion `int64(x)` (or a wrapping arithmetic
      result) yields: the value congruent to `x` modulo 2^64. */
  function ToInt64(x: int): (r: Int64)
    ensures MinInt64 <= x <= MaxInt64 ==> r == x
    ensures 0 < x < TwoTo64 ==> r != 0
    ensures (x - r) % TwoTo64 == 0
  {
    if MinInt64 <= x <= MaxInt64 then x else ((x - MinInt64) % TwoTo64) + MinInt64
  }

  /** The `uint` that wrapping unsigned arithmetic yields. */
  function ToUint64(x: int): (r: Uint64)
    ensures 0 <= x <= MaxUint64 ==> r == x
    ensures (x - r) % TwoTo64 == 0
  {
    if 0 <= x <= MaxUint64 then x else x % TwoTo64
  }

  /** Go's `a / b` on `int64`: the quotient truncated toward zero, except that
      `MinInt64 / -1` overflows and yields `MinInt64`. Division by zero is a
      run-time panic in Go, hence the precondition. */
  function Quo64(a: Int64, b: Int64): (q: Int64)
    requires b != 0
    ensures 0 <= a && 0 < b ==> q == a / b
    ensures a == MinInt64 && b == -1 ==> q == MinInt64
  {
    var t: int := Abs(a) / Abs(b);
    // the quotient of two non-negative values is already in range
    if 0 <= a && 0 < b then t else ToInt64(if (a >= 0) == (b > 0) then t else -t)
  }

  /** Multiplying by a natural number preserves order. */
  lemma MulMonotone(a: int, b: int, c: int)
    requires 0 <= a <= b && 0 <= c
    ensures a * c <= b * c
  {
    assert b * c - a * c == (b - a) * c;
  }

  /** Euclidean division facts on naturals, used to bound a truncated quotient. */
  lemma DivideNat(n: nat, d: nat)
    requires 0 < d
    ensures n == (n / d) * d + n % d && 0 <= n % d < d
    ensures 0 <= n / d <= n
    ensures 2 <= d ==> 2 * (n / d) <= n
  {
    var t, k: nat := n / d, d - 1;
    assert t * d == t + t * k;
    if 2 <= d {
      var j: nat := d - 2;
      assert t * d == 2 * t + t * j;
    }
  }

  /** The multiples of `d` cut the naturals into blocks of `d`: `n` lies in
      block `k` exactly when `k` is the quotient `n / d`. */
  lemma DivisionIsUnique(n: nat, d: nat, k: nat)
    requires 0 < d
    ensures d * k <= n < d * k + d <==> k == n / d
  {
    var q: int := n / d;
    DivideNat(n, d);
    if q < k {
      MulMonotone(q + 1, k, d);
      assert (q + 1) * d == q * d + d;
    } else if k < q {
      MulMonotone(k + 1, q, d);
      assert (k + 1) * d == k * d + d;
    }
  }

  /** If `n * d` is the least multiple of `d` not below `c`, then `k * d` is
      below `c` exactly when `k` is below `n`. */
  lemma MultipleBelowCeiling(k: nat, n: nat, d: nat, c: int)
    requires 0 < d && c <= n * d < c + d
    ensures k * d < c <==> k < n
  {
    if k < n {
      MulMonotone(k + 1, n, d);
      assert (k + 1) * d == k * d + d;
    } else {
      MulMonotone(n, k, d);
    }
  }

  /** Outside the overflowing case the truncated quotient fits in `int64`,
      so the wrap in `Quo64` changes nothing. */
  lemma QuoFits(a: Int64, b: Int64)
    requires b != 0
    requires !(a == MinInt64 && b == -1)
    ensures var t := Abs(a) / Abs(b);
      Quo64(a, b) == if (a >= 0) == (b > 0) then t else -t
  {
    var A: int, B: int := Abs(a), Abs(b);
    var t: int := A / B;
    DivideNat(A, B);
    if B == 1 {
      assert t == A;
    } else {
      assert 2 * t <= A;
    }
    var s: int := if (a >= 0) == (b > 0) then t else -t;
    assert MinInt64 <= s <= MaxInt64;
    assert Quo64(a, b) == ToInt64(s);
  }

  /** The sign bookkeeping behind truncating division, on plain integers. */
  lemma TruncatedRemainder(a: int, b: int, t: int, u: int, q: int)
    requires b != 0
    requires Abs(a) == t * Abs(b) + u && 0 <= u < Abs(b)
    requires q == if (a >= 0) == (b > 0) then t else -t
    ensures a - q * b == if a >= 0 then u else -u
  {
    if b > 0 {
      assert q * b == (if a >= 0 then t * b else -(t * b));
    } else {
      assert q * b == (if a >= 0 then t * -b else -(t * -b));
    }
  }

  /** What Go's specification promises of `/` on signed integers: apart from
      the one overflowing case, `a == q * b + m` with `|m| < |b|` and `m`
      zero or of the sign of `a`. */
  lemma {:induction false} Quo64Truncates(a: Int64, b: Int64)
    requires b != 0
    requires !(a == MinInt64 && b == -1)
    ensures var q := Quo64(a, b); var m := a - q * b;
      Abs(m) < Abs(b) && (m == 0 || (m < 0) == (a < 0))
  {
    var A: int, B: int := Abs(a), Abs(b);
    assert 0 < B;
    var t: int, u: int := A / B, A % B;
    var q := Quo64(a, b);
    DivideNat(A, B);
    assert A == t * B + u;
    QuoFits(a, b);
    TruncatedRemainder(a, b, t, u, q);
    assert a - q * b == if a >= 0 then u else -u;
  }
}
