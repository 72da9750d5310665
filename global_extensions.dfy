/** The global extension methods the ciphers use: the largest prime factor
    (on 64-bit unsigned integers with wrap-around written out), sub-arrays,
    byte-array comparison, character search and block capitalisation. */
module GlobalExtensions {
  import opened Wrappers
  import opened Text
  import opened Arith

  const U32: int := 0x1_0000_0000
  const U64: int := 0x1_0000_0000_0000_0000

  type ulong = x: int | 0 <= x < 0x1_0000_0000_0000_0000
  type byte = x: int | 0 <= x < 256

  /** The trial-division state: n is an odd divisor of n0 with no divisor
      below k, and every prime factor of n0 that n has lost is at most k. */
  ghost predicate Trial(n0: int, n: int, k: int)
  {
    n0 >= 2 && n >= 2 && n0 % n == 0 && n % 2 == 1 && k >= 3 &&
    (forall d :: 2 <= d < k ==> n % d != 0) &&
    (forall p :: IsPrime(p) && n0 % p == 0 && n % p != 0 ==> p <= k)
  }

  /** The arithmetic of `n /= k` when k * k <= n and k divides n: the
      quotient is at least k, below n, and k times it is n. */
  lemma QuotientBounds(n: int, k: int)
    requires k >= 3 && k * k <= n && n % k == 0
    ensures var m := n / k; n == m * k && k <= m < n && n % m == 0
  {
    var m := n / k;
    DivMod(n, k);
    assert n == m * k;
    assert m >= k by {
      if m < k {
        MulMonotone(k - 1, m, k);
      }
    }
    ModUnique(n, m, k, 0);
    assert m < n by {
      MulMonotone(k, 2, m);
    }
  }

  /** `n /= k` keeps the trial state and makes n smaller. */
  lemma DivideStep(n0: int, n: int, k: int)
    requires Trial(n0, n, k) && k * k <= n && n % k == 0
    ensures Trial(n0, n / k, k) && n / k < n
  {
    var m := n / k;
    QuotientBounds(n, k);
    DividesTransitive(m, n, n0);
    assert m % 2 == 1 by {
      if m % 2 == 0 {
        DividesMultiple(2, m, k);
      }
    }
    forall d | 2 <= d < k
      ensures m % d != 0
    {
      if m % d == 0 {
        DividesTransitive(d, m, n);
      }
    }
    forall p | IsPrime(p) && n0 % p == 0 && m % p != 0
      ensures p <= k
    {
      if n % p == 0 {
        Euclid(p, k, m);
        DivisorBound(p, k);
      }
    }
  }

  /** Moving to the next odd k when k does not divide n keeps the trial
      state: k + 1 is even and n is odd. */
  lemma AdvanceStep(n0: int, n: int, k: int)
    requires Trial(n0, n, k) && k % 2 == 1 && n % k != 0
    ensures Trial(n0, n, k + 2)
  {
    if n % (k + 1) == 0 {
      DivMod(k + 1, 2);
      ModUnique(k + 1, 2, (k + 1) / 2, 0);
      DividesTransitive(2, k + 1, n);
    }
  }

  lemma SquareStep(k: int)
    ensures (k + 2) * (k + 2) == k * k + (4 * k + 4)
  {
  }

  lemma SquareBelow(k: int, b: int)
    requires k >= 0 && b >= 0 && k * k < b * b
    ensures k < b
  {
    if k >= b {
      MulMonotone(k, b, k);
      MulMonotone(k, b, b);
    }
  }

  /** A number with no divisor below k is at least k. */
  lemma AtLeastBound(n: int, k: int)
    requires n >= 2 && forall d :: 2 <= d < k ==> n % d != 0
    ensures n >= k
  {
    ModUnique(n, n, 1, 0);
  }

  /** One halving step of the first loop keeps n a divisor of n0 and loses
      only the prime 2. */
  lemma HalveStep(n0: int, n: int)
    requires n0 >= 2 && n > 3 && n % 2 == 0 && n0 % n == 0
    requires forall p :: IsPrime(p) && n0 % p == 0 && n % p != 0 ==> p == 2
    ensures var m := n / 2; m >= 2 && n0 % m == 0
    ensures var m := n / 2; forall p :: IsPrime(p) && n0 % p == 0 && m % p != 0 ==> p == 2
  {
    var m := n / 2;
    DivMod(n, 2);
    assert n == 2 * m;
    ModUnique(n, m, 2, 0);
    DividesTransitive(m, n, n0);
    forall p | IsPrime(p) && n0 % p == 0 && m % p != 0
      ensures p == 2
    {
      if n % p == 0 {
        Euclid(p, 2, m);
        DivisorBound(p, 2);
      }
    }
  }

  /** Once k * k exceeds n, n is the largest prime factor of n0. */
  lemma LargestWhenSquareExceeds(n0: int, n: int, k: int)
    requires Trial(n0, n, k) && n < k * k
    ensures IsLargestPrimeFactor(n0, n)
  {
    PrimeBelowSquare(n, k);
    AtLeastBound(n, k);
    forall p | IsPrime(p) && n0 % p == 0
      ensures p <= n
    {
      if n % p == 0 {
        DivisorBound(p, n);
      }
    }
  }

  /** After the halving loop n is either odd, and the trial state holds for
      k == 3, or it is 2 and then the largest prime factor. */
  lemma AfterHalving(n0: int, n: int)
    requires n0 >= 2 && n >= 2 && !(n > 3 && n % 2 == 0) && n0 % n == 0
    requires forall p :: IsPrime(p) && n0 % p == 0 && n % p != 0 ==> p == 2
    ensures n % 2 == 1 ==> Trial(n0, n, 3)
    ensures n % 2 == 0 ==> n == 2 && IsLargestPrimeFactor(n0, n)
  {
    if n % 2 == 0 {
      forall p | IsPrime(p) && n0 % p == 0
        ensures p <= n
      {
        if n % p == 0 {
          DivisorBound(p, n);
        }
      }
    }
  }

  /** The 64-bit updates of the else branch when k2 + delta does not wrap:
      they compute the next odd square and gap exactly, and k + 2 fits in 32
      bits. */
  lemma NoWrapStep(k: int, k2: int, delta: int)
    requires 3 <= k && k2 == k * k && delta == 4 * k + 4 && 0 <= k2 < U64
    requires (k2 + delta) % U64 >= delta
    ensures k2 + delta < U64
    ensures (k2 + delta) % U64 == (k + 2) * (k + 2)
    ensures (delta + 8) % U64 == 4 * (k + 2) + 4
    ensures (k + 2) % U32 == k + 2 && (k + 2) % 2 == k % 2
  {
    var sum := k2 + delta;
    if sum >= U64 {
      ModUnique(sum, U64, 1, sum - U64);
    }
    ModUnique(sum, U64, 0, sum);
    SquareStep(k);
    SquareBelow(k + 2, U32);
    ModUnique(k + 2, U32, 0, k + 2);
    ModUnique(delta + 8, U64, 0, delta + 8);
    ModShift(k, 2, 1);
  }

  /** When k2 + delta wraps, (k + 2) * (k + 2) is at least 2^64. */
  lemma WrapStep(k: int, k2: int, delta: int)
    requires 3 <= k && k2 == k * k && delta == 4 * k + 4 && 0 <= k2 < U64
    requires (k2 + delta) % U64 < delta
    ensures (k + 2) * (k + 2) >= U64
  {
    var sum := k2 + delta;
    if sum < U64 {
      ModUnique(sum, U64, 0, sum);
    }
    SquareStep(k);
  }

  /** The state of MaxFactor's trial loop: k is odd and fits in 32 bits, k2
      is k * k and delta the gap 4 * k + 4 to the next odd square, both
      64-bit; n is either in the trial state for k or, when n0 < 2 or the
      halving loop ended on 2, still the value it started the loop with. */
  ghost predicate TrialLoop(n0: int, r0: int, n: int, k: int, k2: int, delta: int)
  {
    3 <= k < U32 && k % 2 == 1 && k2 == k * k && delta == 4 * k + 4 && 9 <= k2 < U64 &&
    0 <= n < U64 &&
    (n0 >= 2 && n % 2 == 1 ==> Trial(n0, n, k)) &&
    (n0 < 2 || n % 2 == 0 ==> n <= 2 && n == r0)
  }

  /** The then branch of the trial loop: `n /= k` keeps the loop state and
      makes n smaller. */
  lemma DivideLoop(n0: int, r0: int, n: int, k: int, k2: int, delta: int)
    requires TrialLoop(n0, r0, n, k, k2, delta) && k2 <= n && n % k == 0
    ensures TrialLoop(n0, r0, n / k, k, k2, delta) && n / k < n
  {
    DivideStep(n0, n, k);
  }

  /** The else branch of the trial loop: when k2 + delta wraps, n is already
      the largest prime factor; otherwise the 64-bit updates give the next
      odd k, its square and the next gap, k2 grows and the loop state
      moves on. */
  lemma AdvanceLoop(n0: int, r0: int, n: int, k: int, k2: int, delta: int)
    requires TrialLoop(n0, r0, n, k, k2, delta) && k2 <= n && n % k != 0
    ensures (k2 + delta) % U64 < delta ==> n0 >= 2 && IsLargestPrimeFactor(n0, n)
    ensures (k2 + delta) % U64 >= delta ==>
      TrialLoop(n0, r0, n, (k + 2) % U32, (k2 + delta) % U64, (delta + 8) % U64) &&
      (k2 + delta) % U64 > k2
  {
    AdvanceStep(n0, n, k);
    if (k2 + delta) % U64 < delta {
      WrapStep(k, k2, delta);
      LargestWhenSquareExceeds(n0, n, k + 2);
    } else {
      NoWrapStep(k, k2, delta);
    }
  }

  /** The first loop of MaxFactor: halve n while it is even and above 3
      (`n & 1` is the lowest bit and `n >>= 1` halves n). Afterwards n is
      odd and ready for trial division, or 2 and already the answer. */
  method StripTwos(n0: ulong) returns (n: ulong)
    ensures n0 < 2 ==> n == n0
    ensures n0 >= 2 && n % 2 == 1 ==> Trial(n0, n, 3)
    ensures n0 >= 2 && n % 2 == 0 ==> n == 2 && IsLargestPrimeFactor(n0, n)
  {
    n := n0;
    while n > 3 && n % 2 == 0
      invariant n0 >= 2 ==> n >= 2 && n0 % n == 0
      invariant n0 < 2 ==> n == n0
      invariant n0 >= 2 ==> forall p :: IsPrime(p) && n0 % p == 0 && n % p != 0 ==> p == 2
      decreases n
    {
      HalveStep(n0, n);
      n := n / 2;
    }
    if n0 >= 2 {
      AfterHalving(n0, n);
    }
  }

  /** MaxFactor: strip factors of two while n > 3, then trial-divide by odd k
      while k * k <= n, tracking k * k in k2 and the gap to the next odd square
      in delta. k is a 32-bit and n, k2, delta 64-bit unsigned integers; the
      method returns early when k2 + delta would wrap. The result is the
      largest prime factor. */
  method MaxFactor(n0: ulong) returns (r: ulong)
    ensures n0 >= 2 ==> IsLargestPrimeFactor(n0, r)
    ensures n0 < 2 ==> r == n0
  {
    var n := StripTwos(n0);
    ghost var r0 := n;
    var k: int := 3;
    var k2: ulong := 9;
    var delta: ulong := 16;
    while k2 <= n
      invariant TrialLoop(n0, r0, n, k, k2, delta)
      decreases n - k2
    {
      if n % k == 0 {
        DivideLoop(n0, r0, n, k, k2, delta);
        n := n / k;
      } else {
        AdvanceLoop(n0, r0, n, k, k2, delta);
        if (k2 + delta) % U64 < delta {
          return n;
        }
        k := (k + 2) % U32;
        k2 := (k2 + delta) % U64;
        delta := (delta + 8) % U64;
      }
    }
    if n0 >= 2 && n % 2 == 1 {
      LargestWhenSquareExceeds(n0, n, k);
    }
    return n;
  }

  /** MaxFactor(124) == 31: 31 is the only largest prime factor of 124. */
  lemma MaxFactorOf124(r: int)
    requires IsLargestPrimeFactor(124, r)
    ensures r == 31
  {
    assert IsPrime(31);
    assert r >= 31;
    assert (4 * 31) % r == 0;
    Euclid(r, 4, 31);
    if 4 % r == 0 {
      DivisorBound(r, 4);
    } else {
      DivisorBound(r, 31);
    }
  }

  /** The integer square root: the largest r with r * r <= n. */
  function Isqrt(n: nat): (r: nat)
    ensures r * r <= n < (r + 1) * (r + 1)
  {
    if n == 0 then 0
    else
      var r := Isqrt(n - 1);
      if (r + 1) * (r + 1) <= n then
        assert (r + 1) * (r + 1) == n;
        assert (r + 2) * (r + 2) == n + 2 * r + 3;
        r + 1
      else r
  }

  /** IsPerfectSquare on a count: its square root has no fractional part.
      For the counts it is applied to the double square root is exact, so
      this is the integer square root squaring back to the count. */
  predicate IsPerfectSquare(n: nat)
  {
    Isqrt(n) * Isqrt(n) == n
  }

  /** A number is a perfect square exactly when it is r * r for some r, and
      then its root is r. */
  lemma PerfectSquareRoot(n: nat, r: nat)
    requires r * r == n
    ensures IsPerfectSquare(n) && Isqrt(n) == r
  {
    var q := Isqrt(n);
    if q < r {
      SquareMonotone(r, q + 1);
    } else if q > r {
      SquareMonotone(q, r + 1);
    }
  }

  lemma SquareMonotone(a: int, b: int)
    requires a >= b >= 0
    ensures a * a >= b * b
  {
    MulMonotone(a, b, a);
    MulMonotone(a, b, b);
    assert b * a == a * b;
  }

  const I32Min: int := -0x8000_0000
  const I32Max: int := 0x7FFF_FFFF
  type int32 = x: int | -0x8000_0000 <= x <= 0x7FFF_FFFF

  /** A 32-bit signed sum, wrapped as C# unchecked integer addition wraps. */
  function AddInt32(a: int32, b: int32): (r: int32)
    ensures I32Min <= a + b <= I32Max ==> r == a + b
    ensures a + b > I32Max ==> r == a + b - 0x1_0000_0000
    ensures a + b < I32Min ==> r == a + b + 0x1_0000_0000
    ensures (r - (a + b)) % 0x1_0000_0000 == 0
  {
    if a + b > I32Max then a + b - 0x1_0000_0000
    else if a + b < I32Min then a + b + 0x1_0000_0000
    else a + b
  }

  /** Subarray: a null array, a negative start, a negative length or a range
      past the end are rejected; otherwise the length items from start on are
      copied. The bound check adds in 32 bits, so a start and length whose sum
      wraps pass it and the copy itself (Array.Copy) rejects them. */
  function Subarray<T>(source: Option<seq<T>>, startIndex: int32, length: int32): (r: Result<seq<T>>)
    ensures source.None? ==> r == Failure(ArgumentNull)
    ensures source.Some? && startIndex < 0 ==> r == Failure(ArgumentOutOfRange)
    ensures source.Some? && startIndex >= 0 && length < 0 ==> r == Failure(ArgumentOutOfRange)
    ensures source.Some? && startIndex >= 0 && length >= 0 && startIndex + length > |source.value| ==> r.Failure?
    ensures r.Success? <==> source.Some? && 0 <= startIndex && 0 <= length && startIndex + length <= |source.value|
    ensures r.Success? ==>
      (|r.value| == length && forall i :: 0 <= i < length ==> r.value[i] == source.value[startIndex + i])
  {
    if source.None? then Failure(ArgumentNull)
    else if startIndex < 0 then Failure(ArgumentOutOfRange)
    else if length < 0 || AddInt32(startIndex, length) > |source.value| then Failure(ArgumentOutOfRange)
    else if startIndex + length > |source.value| then Failure(Argument)
    else Success(source.value[startIndex..startIndex + length])
  }

  /** Two adjacent sub-arrays together are the sub-array spanning both. */
  lemma SubarraySplit<T>(a: seq<T>, start: int32, n: int32, m: int32)
    requires 0 <= start && 0 <= n && 0 <= m && start + n + m <= |a| && start + n + m <= I32Max
    ensures Subarray(Some(a), start, n).Success? && Subarray(Some(a), start + n, m).Success?
    ensures Subarray(Some(a), start, n + m).Success?
    ensures Subarray(Some(a), start, n).value + Subarray(Some(a), start + n, m).value
         == Subarray(Some(a), start, n + m).value
  {
    assert a[start..start + n + m] == a[start..start + n] + a[start + n..start + n + m];
  }

  /** Compare: equal lengths and equal bytes at every index. */
  method Compare(a1: seq<byte>, other: seq<byte>) returns (r: bool)
    ensures r <==> a1 == other
  {
    if |a1| != |other| {
      return false;
    }
    var i := 0;
    while i < |a1|
      invariant 0 <= i <= |a1|
      invariant a1[..i] == other[..i]
    {
      if a1[i] != other[i] {
        return false;
      }
      assert a1[..i + 1] == a1[..i] + [a1[i]];
      assert other[..i + 1] == other[..i] + [other[i]];
      i := i + 1;
    }
    assert a1 == a1[..i] && other == other[..i];
    return true;
  }

  /** Contains(str, c): true at the first character equal to c. */
  method Contains(str: string, c: char) returns (r: bool)
    ensures r <==> c in str
  {
    var i := 0;
    while i < |str|
      invariant 0 <= i <= |str|
      invariant c !in str[..i]
    {
      if str[i] == c {
        return true;
      }
      assert str[..i + 1] == str[..i] + [str[i]];
      i := i + 1;
    }
    assert str[..i] == str;
    return false;
  }

  /** ToBlock: "" for an empty string (a null string is empty here),
      otherwise the first character in upper case and the rest in lower case. */
  function ToBlock(s: string): (r: string)
    ensures |r| == |s|
    ensures forall i :: 0 <= i < |s| ==> LowerChar(r[i]) == LowerChar(s[i])
    ensures s != [] ==> !('a' <= r[0] <= 'z')
    ensures forall i :: 1 <= i < |s| ==> !IsCapital(r[i])
  {
    if s == [] then [] else [UpperChar(s[0])] + Lower(s[1..])
  }

  /** Block format is already in block format. */
  lemma ToBlockIdempotent(s: string)
    ensures ToBlock(ToBlock(s)) == ToBlock(s)
  {
    if s != [] {
      var b := ToBlock(s);
      assert b[1..] == Lower(s[1..]);
      assert Lower(b[1..]) == b[1..];
    }
  }

  /** Block format of a non-empty string: the capitalised head, the rest in
      lower case, so it ignores the original case of every letter. */
  lemma ToBlockCaseInsensitive(s: string)
    ensures ToBlock(Upper(s)) == ToBlock(s) && ToBlock(Lower(s)) == ToBlock(s)
    ensures s != [] ==> !('a' <= ToBlock(s)[0] <= 'z')
    ensures forall i :: 1 <= i < |s| ==> !IsCapital(ToBlock(s)[i])
  {
    if s != [] {
      var b := ToBlock(s);
      var u := ToBlock(Upper(s));
      var l := ToBlock(Lower(s));
      forall i | 0 <= i < |s|
        ensures u[i] == b[i] && l[i] == b[i]
      {
        CaseFolds(s[i]);
        if i > 0 {
          assert u[i] == LowerChar(Upper(s)[i]) && l[i] == LowerChar(Lower(s)[i]);
          assert b[i] == LowerChar(s[i]);
        }
      }
    }
  }

  /** Folding the case of a character first does not change either case. */
  lemma CaseFolds(c: char)
    ensures LowerChar(UpperChar(c)) == LowerChar(c) && UpperChar(LowerChar(c)) == UpperChar(c)
    ensures UpperChar(UpperChar(c)) == UpperChar(c)
  {
  }

  /** IsString(chars, value): the characters spell the string. */
  function IsString(chars: seq<char>, value: string): (r: bool)
    ensures r <==> |chars| == |value| && forall i :: 0 <= i < |chars| ==> chars[i] == value[i]
  {
    chars == value
  }

  /** IsCharArray(value, chars): the same test with the arguments swapped. */
  function IsCharArray(value: string, chars: seq<char>): (r: bool)
    ensures r == IsString(chars, value)
  {
    chars == value
  }
}
