/** Integer arithmetic the modelled code relies on: the uniqueness of Euclidean
    quotient and remainder, and C#'s truncating division and remainder, which
    differ from Dafny's Euclidean `/` and `%` on negative operands. */
module Arith {

  lemma MulAtLeast(x: int, n: int)
    requires x >= 1 && n > 0
    ensures x * n >= n
  {
    if x > 1 {
      MulAtLeast(x - 1, n);
      assert x * n == (x - 1) * n + n;
    }
  }

  /** Quotient and remainder are determined by a == q * n + r, 0 <= r < n. */
  lemma ModUnique(a: int, n: int, q: int, r: int)
    requires n > 0 && 0 <= r < n && a == q * n + r
    ensures a % n == r && a / n == q
  {
    var q', r' := a / n, a % n;
    assert a == q' * n + r';
    assert (q - q') * n == r' - r;
    if q - q' >= 1 {
      MulAtLeast(q - q', n);
    } else if q' - q >= 1 {
      MulAtLeast(q' - q, n);
    }
  }

  lemma DivMod(a: int, n: int)
    requires n > 0
    ensures a == (a / n) * n + a % n && 0 <= a % n < n
  {
  }

  /** One step forward from a residue. */
  lemma ModNext(d: int, n: int)
    requires n > 0
    ensures (d + 1) % n == if d % n < n - 1 then d % n + 1 else 0
  {
    DivMod(d, n);
    if d % n < n - 1 {
      ModUnique(d + 1, n, d / n, d % n + 1);
    } else {
      ModUnique(d + 1, n, d / n + 1, 0);
    }
  }

  /** One step back from a residue. */
  lemma ModPrev(d: int, n: int)
    requires n > 0
    ensures (d - 1) % n == if d % n > 0 then d % n - 1 else n - 1
  {
    DivMod(d, n);
    if d % n > 0 {
      ModUnique(d - 1, n, d / n, d % n - 1);
    } else {
      ModUnique(d - 1, n, d / n - 1, n - 1);
    }
  }

  /** The residue of -k. */
  lemma ModNeg(k: int, n: int)
    requires n > 0
    ensures (-k) % n == if k % n == 0 then 0 else n - k % n
  {
    DivMod(k, n);
    if k % n == 0 {
      ModUnique(-k, n, -(k / n), 0);
    } else {
      ModUnique(-k, n, -(k / n) - 1, n - k % n);
    }
  }

  /** The residue of i + k for a residue i. */
  lemma ModAdd(i: int, k: int, n: int)
    requires n > 0 && 0 <= i < n
    ensures (i + k) % n == if i < n - k % n then i + k % n else i + k % n - n
  {
    DivMod(k, n);
    if i < n - k % n {
      ModUnique(i + k, n, k / n, i + k % n);
    } else {
      ModUnique(i + k, n, k / n + 1, i + k % n - n);
    }
  }

  /** Bounds on a quotient from bounds on the dividend. */
  lemma DivBetween(a: int, d: int, lo: int, hi: int)
    requires d > 0 && lo * d <= a < (hi + 1) * d
    ensures lo <= a / d <= hi
  {
    DivMod(a, d);
    var q := a / d;
    if q > hi {
      MulMonotone(q, hi + 1, d);
    }
    if q < lo {
      MulMonotone(lo, q + 1, d);
    }
  }

  lemma ModShift(a: int, n: int, m: int)
    requires n > 0
    ensures (a + m * n) % n == a % n
  {
    ModUnique(a + m * n, n, a / n + m, a % n);
  }

  /** C# integer division: the quotient rounded towards zero. */
  function TruncDiv(a: int, b: int): (q: int)
    requires b != 0
    ensures a >= 0 && b > 0 ==> q == a / b
  {
    if (a >= 0) == (b > 0) then (if a >= 0 then a / b else (-a) / (-b))
    else -((if a >= 0 then a else -a) / (if b > 0 then b else -b))
  }

  /** C# remainder: it takes the sign of the dividend, so -1 % 5 == -1. */
  function TruncMod(a: int, b: int): (r: int)
    requires b != 0
    ensures a >= 0 && b > 0 ==> r == a % b
  {
    a - b * TruncDiv(a, b)
  }

  /** The remainder keeps the dividend's sign and is smaller than the divisor. */
  lemma TruncModRange(a: int, b: int)
    requires b > 0
    ensures a >= 0 ==> 0 <= TruncMod(a, b) < b
    ensures a < 0 ==> -b < TruncMod(a, b) <= 0
    ensures a < 0 && -a < b ==> TruncMod(a, b) == a
  {
    if a < 0 {
      var q := (-a) / b;
      assert TruncDiv(a, b) == -q;
      assert TruncMod(a, b) == a + b * q;
      assert -a == q * b + (-a) % b;
      if -a < b {
        ModUnique(-a, b, 0, -a);
      }
    }
  }

  predicate IsPrime(p: int)
  {
    p >= 2 && forall d :: 2 <= d < p ==> p % d != 0
  }

  /** A divisor of a positive number is at most that number. */
  lemma DivisorBound(d: int, n: int)
    requires d >= 1 && n >= 1 && n % d == 0
    ensures d <= n
  {
    DivMod(n, d);
    assert n / d >= 1;
    MulAtLeast(n / d, d);
  }

  /** Divisibility is preserved by integer combinations: n divides a - c * b. */
  lemma DividesCombination(n: int, a: int, b: int, c: int)
    requires n > 0 && a % n == 0 && b % n == 0
    ensures (a - c * b) % n == 0
  {
    DivMod(a, n);
    DivMod(b, n);
    var s, t := a / n, b / n;
    assert a - c * b == (s - c * t) * n by {
      assert c * b == c * (t * n) == (c * t) * n;
    }
    ModUnique(a - c * b, n, s - c * t, 0);
  }

  lemma DividesMultiple(n: int, a: int, c: int)
    requires n > 0 && a % n == 0
    ensures (c * a) % n == 0
  {
    DividesCombination(n, 0, a, -c);
  }

  lemma DividesTransitive(a: int, b: int, c: int)
    requires a > 0 && b > 0 && b % a == 0 && c % b == 0
    ensures c % a == 0
  {
    DivMod(c, b);
    DividesMultiple(a, b, c / b);
    assert c == (c / b) * b;
  }

  function Gcd(x: nat, y: nat): (g: nat)
    ensures x > 0 || y > 0 ==> g > 0
    decreases y
  {
    if y == 0 then x else Gcd(y, x % y)
  }

  /** The gcd divides both arguments. */
  lemma {:induction false} GcdDivides(x: nat, y: nat)
    requires x > 0 || y > 0
    ensures x % Gcd(x, y) == 0 && y % Gcd(x, y) == 0
    decreases y
  {
    if y == 0 {
      ModUnique(x, x, 1, 0);
      ModUnique(0, x, 0, 0);
    } else {
      GcdDivides(y, x % y);
      var g := Gcd(y, x % y);
      DivMod(x, y);
      assert x == (x % y) - (-(x / y)) * y;
      DividesCombination(g, x % y, y, -(x / y));
    }
  }

  /** If p divides x * b and y * b, it divides gcd(x, y) * b. */
  lemma {:induction false} GcdScaled(x: nat, y: nat, p: int, b: int)
    requires p > 0 && (x * b) % p == 0 && (y * b) % p == 0
    ensures (Gcd(x, y) * b) % p == 0
    decreases y
  {
    if y != 0 {
      DivMod(x, y);
      assert (x % y) * b == x * b - (x / y) * (y * b) by {
        assert x % y == x - (x / y) * y;
      }
      DividesCombination(p, x * b, y * b, x / y);
      GcdScaled(y, x % y, p, b);
    }
  }

  /** Euclid's lemma: a prime dividing a product divides one of the factors. */
  lemma Euclid(p: int, a: nat, b: nat)
    requires IsPrime(p) && (a * b) % p == 0
    ensures a % p == 0 || b % p == 0
  {
    DividesMultiple(p, p, b);
    assert (p * b) % p == 0;
    GcdScaled(a, p, p, b);
    GcdDivides(a, p);
    var g := Gcd(a, p);
    DivisorBound(g, p);
    if g == 1 {
      assert b % p == 0;
    } else {
      assert g == p;
    }
  }

  lemma MulMonotone(a: int, b: int, c: int)
    requires a >= b >= 0 && c >= 0
    ensures a * c >= b * c
  {
    assert a * c - b * c == (a - b) * c;
  }

  /** A divisor d of n with no divisor of n below k has a cofactor of at least
      k, so n >= k * k. */
  lemma CofactorBound(n: int, k: int, d: int)
    requires n >= 2 && k >= 2 && 2 <= d < n && n % d == 0
    requires forall e :: 2 <= e < k ==> n % e != 0
    ensures n >= k * k
  {
    DivMod(n, d);
    var e := n / d;
    assert n == e * d;
    assert e >= 2 by {
      if e <= 1 {
        MulMonotone(1, e, d);
      }
    }
    ModUnique(n, e, d, 0);
    MulMonotone(e, k, d);
    MulMonotone(d, k, k);
    assert k * d == d * k;
  }

  /** A number with no divisor below k and smaller than k * k is prime. */
  lemma PrimeBelowSquare(n: int, k: int)
    requires n >= 2 && k >= 2 && n < k * k
    requires forall d :: 2 <= d < k ==> n % d != 0
    ensures IsPrime(n)
  {
    forall d | 2 <= d < n
      ensures n % d != 0
    {
      if n % d == 0 {
        CofactorBound(n, k, d);
      }
    }
  }

  /** r is the largest prime factor of n. */
  ghost predicate IsLargestPrimeFactor(n: int, r: int)
  {
    IsPrime(r) && n % r == 0 && forall p :: IsPrime(p) && n % p == 0 ==> p <= r
  }

  /** The largest prime factor is unique. */
  lemma LargestPrimeFactorUnique(n: int, r: int, r': int)
    requires IsLargestPrimeFactor(n, r) && IsLargestPrimeFactor(n, r')
    ensures r == r'
  {
  }
}
