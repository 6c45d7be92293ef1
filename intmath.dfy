/** Integer helpers for the clipper, chief among them C++'s truncating
    integer division. */
module IntMath {

  function Abs(n: int): int {
    if n < 0 then -n else n
  }

  function Min(a: int, b: int): int {
    if a <= b then a else b
  }

  function Max(a: int, b: int): int {
    if a <= b then b else a
  }

  /** v lies in the closed interval spanned by a and b, in either order. */
  predicate Between(v: int, a: int, b: int) {
    Min(a, b) <= v <= Max(a, b)
  }

  /** C++ `/` on `int`: the magnitude of the quotient is |a| / |b| rounded
      down, and its sign is negative exactly when the operands' signs
      differ. Dafny's own `/` is Euclidean and differs for negative
      operands. */
  function TruncDiv(a: int, b: int): int
    requires b != 0
  {
    var m := Abs(a) / Abs(b);
    if (a < 0) == (b < 0) then m else -m
  }

  lemma MulPos(a: int, b: int)
    requires a > 0 && b > 0
    ensures a * b > 0
  {
  }

  lemma MulNegPos(a: int, b: int)
    ensures (-a) * b == -(a * b) && a * (-b) == -(a * b) && (-a) * (-b) == a * b
  {
  }

  /** The sign of a product of two non-zero factors. */
  lemma ProductSign(a: int, b: int)
    requires a != 0 && b != 0
    ensures a * b != 0
    ensures (a * b < 0) <==> ((a < 0) != (b < 0))
  {
    if a > 0 && b > 0 {
      MulPos(a, b);
    } else if a < 0 && b < 0 {
      MulPos(-a, -b);
      MulNegPos(a, b);
    } else if a < 0 {
      MulPos(-a, b);
      MulNegPos(a, b);
    } else {
      MulPos(a, -b);
      MulNegPos(a, b);
    }
  }

  lemma AbsMul(a: int, b: int)
    ensures Abs(a * b) == Abs(a) * Abs(b)
  {
    if a == 0 || b == 0 {
      assert a * b == 0;
    } else {
      ProductSign(a, b);
      MulNegPos(a, b);
    }
  }

  lemma MulMono(k: int, a: int, b: int)
    requires k >= 0 && a <= b
    ensures k * a <= k * b
  {
    if k > 0 && a < b {
      MulPos(k, b - a);
      assert k * (b - a) == k * b - k * a;
    }
  }

  /** Cancelling a positive factor from both sides of `<=`. */
  lemma CancelLe(a: int, b: int, m: int)
    requires m > 0 && a * m <= b * m
    ensures a <= b
  {
    if a > b {
      assert (a - b) * m == a * m - b * m;
      MulPos(a - b, m);
    }
  }

  /** Dafny's division on a non-negative dividend and a positive divisor. */
  lemma NatDiv(n: int, d: int)
    requires n >= 0 && d > 0
    ensures n / d >= 0 && 0 <= n - (n / d) * d < d
  {
    var m, r := n / d, n % d;
    assert n == d * m + r && 0 <= r < d;
    if m < 0 {
      MulNegPos(d, m);
      MulPos(d, -m);
    }
    assert m * d == d * m;
  }

  /** The C++ definition of `/` and `%`: the remainder a - (a / b) * b has
      the sign of the dividend and is smaller than the divisor in
      magnitude. */
  lemma TruncDivSpec(a: int, b: int)
    requires b != 0
    ensures a >= 0 ==> 0 <= a - TruncDiv(a, b) * b < Abs(b)
    ensures a < 0 ==> -Abs(b) < a - TruncDiv(a, b) * b <= 0
    ensures Abs(TruncDiv(a, b)) * Abs(b) <= Abs(a)
  {
    var n, d := Abs(a), Abs(b);
    var m := n / d;
    NatDiv(n, d);
    var q := TruncDiv(a, b);
    MulNegPos(m, d);
    if b > 0 {
      if a >= 0 {
        assert q == m && a - q * b == n - m * d;
      } else {
        assert q == -m && q * b == -(m * d) && a - q * b == -(n - m * d);
      }
    } else {
      if a >= 0 {
        assert q == -m && q * b == (-m) * (-d) == m * d;
      } else {
        assert q == m && q * b == m * (-d) == -(m * d) && a - q * b == -(n - m * d);
      }
    }
    assert Abs(q) == m;
  }

  /** A truncated multiple of d lies between 0 and d: for n / m in [0, 1],
      (d * n) / m in C++ lies between 0 and d. */
  lemma ScaledQuotientBetween(d: int, n: int, m: int)
    requires m != 0
    requires 0 <= n <= m || m <= n <= 0
    ensures Between(TruncDiv(d * n, m), 0, d)
  {
    var k := Abs(d * n) / Abs(m);
    NatDiv(Abs(d * n), Abs(m));
    AbsMul(d, n);
    MulMono(Abs(d), Abs(n), Abs(m));
    assert k * Abs(m) <= Abs(d) * Abs(m);
    CancelLe(k, Abs(d), Abs(m));
    if d == 0 || n == 0 {
      assert d * n == 0;
      assert k * Abs(m) <= 0;
      if k > 0 {
        MulPos(k, Abs(m));
      }
      assert TruncDiv(d * n, m) == 0;
    } else {
      ProductSign(d, n);
      assert (d * n < 0) == (m < 0) <==> d > 0;
    }
  }
}
