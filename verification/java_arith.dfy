/**
  The two pieces of Java integer arithmetic `dateDiff` relies on, written
  out over unbounded integers: `long` division, which truncates toward
  zero, and the `(int)` narrowing cast, which keeps the low 32 bits.
 */
module JavaArith {

  const IntMin: int := -0x8000_0000
  const IntMax: int := 0x7FFF_FFFF
  const LongMin: int := -0x8000_0000_0000_0000
  const LongMax: int := 0x7FFF_FFFF_FFFF_FFFF

  /** 2^32, the period of the `int` wrap-around. */
  const IntModulus: int := 0x1_0000_0000

  predicate InInt(x: int) {
    IntMin <= x <= IntMax
  }

  predicate InLong(x: int) {
    LongMin <= x <= LongMax
  }

  /**
    `q` is `a / n` rounded toward zero: `q * n` lies between 0 and `a`
    (inclusive) and is less than one `n` away from `a`.
   */
  predicate IsTruncatedQuotient(a: int, n: int, q: int)
    requires n > 0
  {
    if a >= 0 then 0 <= q * n <= a < q * n + n
    else q * n - n < a <= q * n <= 0
  }

  /** Division of a non-negative number rounds down: the remainder is below the divisor. */
  lemma NonNegativeQuotient(b: int, n: int)
    requires b >= 0 && n > 0
    ensures 0 <= (b / n) * n <= b < (b / n) * n + n
  {
    var q, rem := b / n, b % n;
    assert b == q * n + rem && 0 <= rem < n;
    assert q >= 0;
  }

  /** Negation moves out of a product. */
  lemma NegatedProduct(x: int, n: int)
    ensures (-x) * n == -(x * n)
  {
  }

  /** Java's `/` on `long` with a positive divisor. */
  function Quot(a: int, n: int): (q: int)
    requires n > 0
    ensures IsTruncatedQuotient(a, n, q)
  {
    if a >= 0 then
      NonNegativeQuotient(a, n);
      a / n
    else
      var m := (-a) / n;
      NonNegativeQuotient(-a, n);
      NegatedProduct(m, n);
      -m
  }

  /** Distinct multiples of `n` are at least `n` apart. */
  lemma MultiplesApart(q1: int, q2: int, n: int)
    requires n > 0 && q1 < q2
    ensures q1 * n + n <= q2 * n
  {
    var k := q2 - q1 - 1;
    assert k * n >= 0;
    assert q2 * n == q1 * n + n + k * n;
  }

  /** There is only one truncated quotient. */
  lemma TruncatedQuotientUnique(a: int, n: int, q1: int, q2: int)
    requires n > 0
    requires IsTruncatedQuotient(a, n, q1) && IsTruncatedQuotient(a, n, q2)
    ensures q1 == q2
  {
    if q1 < q2 {
      MultiplesApart(q1, q2, n);
    } else if q2 < q1 {
      MultiplesApart(q2, q1, n);
    }
  }

  /** Truncating division commutes with negation. */
  lemma QuotOfNegation(a: int, n: int)
    requires n > 0
    ensures Quot(-a, n) == -Quot(a, n)
  {
    var q := Quot(a, n);
    assert (-q) * n == -(q * n);
    TruncatedQuotientUnique(-a, n, Quot(-a, n), -q);
  }

  /** The quotient has the sign of the dividend and is zero exactly below one divisor. */
  lemma QuotSign(a: int, n: int)
    requires n > 0
    ensures Quot(a, n) < 0 <==> a <= -n
    ensures Quot(a, n) > 0 <==> a >= n
  {
    var q := Quot(a, n);
    if q < 0 {
      assert q * n <= -n;
    } else if q > 0 {
      assert q * n >= n;
    }
  }

  /** A long multiple of `n` divides back exactly. */
  lemma QuotOfMultiple(a: int, n: int)
    requires n > 0
    ensures Quot(a * n, n) == a
  {
    TruncatedQuotientUnique(a * n, n, Quot(a * n, n), a);
  }

  /** A dividend strictly inside the `int` range scaled by `n` has a quotient that fits an `int`. */
  lemma QuotFitsInt(a: int, n: int)
    requires n > 0
    ensures IntMin * n < a < -IntMin * n ==> InInt(Quot(a, n))
  {
    var q := Quot(a, n);
    if IntMin * n < a < -IntMin * n {
      if q > IntMax {
        assert IntMax * n + n == -IntMin * n;
        MultiplesApart(IntMax, q, n);
      } else if q < IntMin {
        MultiplesApart(q, IntMin, n);
      }
    }
  }

  /** `(int)` applied to a `long`: the two's-complement value of its low 32 bits. */
  function NarrowToInt(x: int): (r: int)
    ensures InInt(r)
    ensures (x - r) % IntModulus == 0
    ensures InInt(x) ==> r == x
  {
    (x - IntMin) % IntModulus + IntMin
  }

  /** `(int)` sees only the residue modulo 2^32: adding whole periods changes nothing. */
  lemma NarrowToIntOfShift(x: int, k: int)
    ensures NarrowToInt(x + k * IntModulus) == NarrowToInt(x)
  {
    var a := x - IntMin;
    var q, rem := a / IntModulus, a % IntModulus;
    assert a == q * IntModulus + rem;
    assert a + k * IntModulus == (q + k) * IntModulus + rem;
    assert (a + k * IntModulus) / IntModulus == q + k;
  }

  /**
    In two's complement, narrowing commutes with negation; the narrowed
    value negates exactly unless it is `Integer.MIN_VALUE`.
   */
  lemma NarrowToIntNegation(x: int)
    ensures NarrowToInt(-NarrowToInt(x)) == NarrowToInt(-x)
    ensures NarrowToInt(x) != IntMin ==> NarrowToInt(-NarrowToInt(x)) == -NarrowToInt(x)
    ensures NarrowToInt(x) == IntMin ==> NarrowToInt(-NarrowToInt(x)) == IntMin
  {
    var w := NarrowToInt(x);
    var k := (x - w) / IntModulus;
    assert x - w == k * IntModulus;
    NarrowToIntOfShift(-x, k);
    NarrowToIntOfShift(IntMin, 1);
  }

  /** Dividing the negated dividend and narrowing gives the narrowed negation of the narrowed quotient. */
  lemma NarrowedQuotOfNegation(a: int, n: int)
    requires n > 0
    ensures NarrowToInt(Quot(-a, n)) == NarrowToInt(-NarrowToInt(Quot(a, n)))
    ensures NarrowToInt(Quot(a, n)) != IntMin ==> NarrowToInt(Quot(-a, n)) == -NarrowToInt(Quot(a, n))
  {
    QuotOfNegation(a, n);
    NarrowToIntNegation(Quot(a, n));
  }
}
