/**
 * Trial-division primality check `NumeroPrimo(int n)`.
 *
 * The Java loop runs `for (int i = 2; i < Math.sqrt(n); i++)`. The model writes the
 * guard as the integer comparison `i * i < n`: for every `int` n >= 2 the two agree,
 * because the double nearest to sqrt(n) is never within a rounding step of an integer
 * i unless i * i == n exactly. That agreement is an assumption of the model, not a
 * fact proved here about floating point. Because the bound is strict, the integer
 * square root of a perfect square is never tried, so the squares of primes are
 * reported prime; the model keeps that behaviour (see PrimeSquareAccepted).
 */
module NumeroPrimoModel {
  import opened JavaInt

  /** Mathematical primality: greater than one, with no divisor strictly between. */
  ghost predicate IsPrime(n: int) {
    n > 1 && forall d :: 1 < d < n ==> n % d != 0
  }

  ghost predicate IsPerfectSquare(n: int) {
    exists k :: k * k == n
  }

  /**
   * What the Java loop decides: n > 1 and no candidate i >= 2 with i * i < n
   * (that is, i < sqrt(n)) divides n.
   */
  ghost predicate TrialDivisionAccepts(n: int) {
    n > 1 && forall i :: 2 <= i && i * i < n ==> n % i != 0
  }

  // ---------------------------------------------------------------------------
  // Arithmetic facts the proofs below rest on.

  lemma MulAtLeast(q: int, d: int)
    requires q > 0 && d >= 1
    ensures q * d >= q
  {
    assert q * d == q * (d - 1) + q;
    assert q * (d - 1) >= 0;
  }

  /** Quotient and remainder are unique (Dafny's Euclidean division). */
  lemma DivModUnique(n: int, q: int, m: int, r: int)
    requires q > 0 && n == q * m + r && 0 <= r < q
    ensures n % q == r && n / q == m
  {
    var m', r' := n / q, n % q;
    assert q * m' + r' == n;
    assert q * (m - m') == r' - r;
    if m - m' >= 1 {
      MulAtLeast(q, m - m');
    } else if m' - m >= 1 {
      MulAtLeast(q, m' - m);
    }
  }

  lemma ModOfMultiple(q: int, k: int)
    requires q > 0
    ensures (q * k) % q == 0
  {
    DivModUnique(q * k, q, k, 0);
  }

  lemma SquareMonotone(x: int, y: int)
    requires 0 <= x <= y
    ensures x * x <= y * y
  {
  }

  /** A value at least 2 is smaller than its square. */
  lemma BelowOwnSquare(i: int)
    requires i >= 2
    ensures i < i * i
  {
    MulAtLeast(i, i - 1);
    assert i * i == i * (i - 1) + i;
  }

  /** Divisibility is transitive. */
  lemma DividesTransitive(a: int, b: int, c: int)
    requires a > 0 && b > 0 && b % a == 0 && c % b == 0
    ensures c % a == 0
  {
    var x, y := b / a, c / b;
    assert b == a * x;
    assert c == b * y;
    assert c == a * (x * y);
    ModOfMultiple(a, x * y);
  }

  /**
   * If i * i is representable as a Java int, then i < 46341 (46341 * 46341 exceeds
   * Integer.MAX_VALUE), so i + 1 is representable as well.
   */
  lemma RootBoundFitsInt(i: int)
    requires 0 <= i && i * i <= INT_MAX
    ensures i < 46341 && i + 1 <= INT_MAX
  {
    if i >= 46341 {
      SquareMonotone(46341, i);
    }
  }

  // ---------------------------------------------------------------------------
  // Divisors of composite numbers.

  /** Every composite n has a divisor e >= 2 with e * e <= n. */
  lemma {:induction false} DivisorAtMostRoot(n: int, d: int) returns (e: int)
    requires 1 < d < n && n % d == 0
    ensures 2 <= e && e * e <= n && n % e == 0
  {
    if d * d <= n {
      return d;
    }
    e := n / d;
    assert n == d * e;
    assert e * e <= e * d;
    ModOfMultiple(e, d);
  }

  /** Every n > 1 has a prime divisor. */
  lemma {:induction false} PrimeDivisor(n: int) returns (q: int)
    requires n > 1
    ensures IsPrime(q) && q <= n && n % q == 0
    decreases n
  {
    if IsPrime(n) {
      ModOfMultiple(n, 1);
      return n;
    }
    var d :| 1 < d < n && n % d == 0;
    q := PrimeDivisor(d);
    DividesTransitive(q, d, n);
  }

  /** Euclid's lemma in the form used here: a prime dividing a * b with 0 < a < q divides b. */
  lemma {:induction false} EuclidPrime(q: int, a: int, b: int)
    requires IsPrime(q) && 0 < a < q && (a * b) % q == 0
    ensures b % q == 0
    decreases a
  {
    if a == 1 {
      return;
    }
    var k, r := q / a, q % a;
    assert q == a * k + r;
    assert r != 0;
    var m := (a * b) / q;
    assert a * b == q * m;
    assert r * b == q * b - k * (a * b);
    assert r * b == q * (b - k * m);
    ModOfMultiple(q, b - k * m);
    EuclidPrime(q, r, b);
  }

  // ---------------------------------------------------------------------------
  // The method and what its verdict means.

  /**
   * `NumeroPrimo`: false for n <= 1; otherwise tries i = 2, 3, ... while i < sqrt(n)
   * and returns false at the first exact divisor, true when none is found. The
   * counter is a Java int and never overflows.
   */
  method NumeroPrimo(n: int32) returns (r: bool)
    ensures n <= 1 ==> !r
    ensures r == TrialDivisionAccepts(n as int)
  {
    if n <= 1 {
      return false;
    }
    ghost var m := n as int;
    var i: int32 := 2;
    while (i as int) * (i as int) < n as int
      invariant 2 <= i
      invariant forall j :: 2 <= j < i as int ==> m % j != 0
    {
      if n % i == 0 {
        return false;
      }
      RootBoundFitsInt(i as int);
      i := i + 1;
    }
    forall j | 2 <= j && j * j < m
      ensures m % j != 0
    {
      if j >= i as int {
        SquareMonotone(i as int, j);
      }
    }
    return true;
  }

  /** A false verdict for n > 1 names a divisor below the square root, so n is composite. */
  lemma RejectedIsComposite(n: int) returns (i: int)
    requires n > 1 && !TrialDivisionAccepts(n)
    ensures 2 <= i && i * i < n && n % i == 0
    ensures !IsPrime(n)
  {
    i :| 2 <= i && i * i < n && n % i == 0;
    BelowOwnSquare(i);
  }

  /** Every prime is accepted: the check never rejects a prime. */
  lemma PrimeAccepted(n: int)
    requires IsPrime(n)
    ensures TrialDivisionAccepts(n)
  {
    forall i | 2 <= i && i * i < n
      ensures n % i != 0
    {
      BelowOwnSquare(i);
    }
  }

  /** Away from perfect squares the verdict is exactly primality. */
  lemma AcceptedIffPrimeOffSquares(n: int)
    requires n > 1 && !IsPerfectSquare(n)
    ensures TrialDivisionAccepts(n) <==> IsPrime(n)
  {
    if IsPrime(n) {
      PrimeAccepted(n);
    } else {
      var d :| 1 < d < n && n % d == 0;
      var e := DivisorAtMostRoot(n, d);
      assert e * e != n;
    }
  }

  /** A prime q below the prime p does not divide p * p. */
  lemma SmallerPrimeNotDividingSquare(q: int, p: int)
    requires IsPrime(q) && IsPrime(p) && q < p
    ensures (p * p) % q != 0
  {
    if (p * p) % q == 0 {
      var t, a := p / q, p % q;
      assert p == q * t + a;
      assert a != 0;
      var s := (p * p) / q;
      assert p * p == q * s;
      assert a * p == q * (s - t * p);
      ModOfMultiple(q, s - t * p);
      EuclidPrime(q, a, p);
      assert false;
    }
  }

  /** No i with 2 <= i < p divides the square of the prime p. */
  lemma NoDivisorOfPrimeSquareBelowP(p: int, i: int)
    requires IsPrime(p) && 2 <= i < p
    ensures (p * p) % i != 0
  {
    if (p * p) % i == 0 {
      var q := PrimeDivisor(i);
      BelowOwnSquare(p);
      DividesTransitive(q, i, p * p);
      SmallerPrimeNotDividingSquare(q, p);
    }
  }

  /**
   * The boundary defect: the square of every prime p is accepted although it is
   * composite, since its only divisor strictly between 1 and p * p is p itself,
   * and `i < sqrt(p * p)` stops before it.
   */
  lemma PrimeSquareAccepted(p: int)
    requires IsPrime(p)
    ensures TrialDivisionAccepts(p * p)
    ensures !IsPrime(p * p)
  {
    BelowOwnSquare(p);
    ModOfMultiple(p, p);
    forall i | 2 <= i && i * i < p * p
      ensures (p * p) % i != 0
    {
      if i >= p {
        SquareMonotone(p, i);
      }
      NoDivisorOfPrimeSquareBelowP(p, i);
    }
  }

  /** For 2 and 3 the loop guard fails at i = 2, so the body never runs and the verdict is true. */
  lemma TwoAndThreeSkipLoop(n: int)
    requires n == 2 || n == 3
    ensures !(2 * 2 < n)
    ensures TrialDivisionAccepts(n)
  {
    forall i | 2 <= i
      ensures i * i >= n
    {
      SquareMonotone(2, i);
    }
  }

  /** Sample verdicts, including the defect at 4, 9 and 25. */
  lemma Examples()
    ensures !TrialDivisionAccepts(1) && !TrialDivisionAccepts(0) && !TrialDivisionAccepts(-5)
    ensures TrialDivisionAccepts(17) && !TrialDivisionAccepts(18)
    ensures TrialDivisionAccepts(4) && TrialDivisionAccepts(9) && TrialDivisionAccepts(25)
    ensures !IsPrime(4) && !IsPrime(9) && !IsPrime(25)
  {
    forall i | 2 <= i && i * i < 17
      ensures 17 % i != 0
    {
      if i >= 5 {
        SquareMonotone(5, i);
      }
    }
    assert 18 % 2 == 0 && 2 * 2 < 18;
    assert IsPrime(2);
    assert IsPrime(3);
    assert IsPrime(5);
    PrimeSquareAccepted(2);
    PrimeSquareAccepted(3);
    PrimeSquareAccepted(5);
  }

  // ---------------------------------------------------------------------------
  // The intended check, with the integer square root included.

  /**
   * The loop as evidently intended, `i <= sqrt(n)`: its verdict is exactly
   * primality, for every Java int.
   */
  method NumeroPrimoCorregido(n: int32) returns (r: bool)
    ensures r == IsPrime(n as int)
  {
    if n <= 1 {
      return false;
    }
    ghost var m := n as int;
    var i: int32 := 2;
    while (i as int) * (i as int) <= n as int
      invariant 2 <= i
      invariant forall j :: 2 <= j < i as int ==> m % j != 0
    {
      if n % i == 0 {
        BelowOwnSquare(i as int);
        return false;
      }
      RootBoundFitsInt(i as int);
      i := i + 1;
    }
    forall d | 1 < d < m
      ensures m % d != 0
    {
      if m % d == 0 {
        var e := DivisorAtMostRoot(m, d);
        if e >= i as int {
          SquareMonotone(i as int, e);
        }
      }
    }
    return true;
  }
}
