/** The prime search behind the growth of hash tables (libcxx/src/hash.cpp).

    The search tries the numbers 210 * k + INDICES[i] in order and tests each by dividing it
    by the primes 11 .. 199 and then by the same kind of numbers from 211 on.  Arithmetic is
    on unbounded naturals; `NextPrime` also returns, as a ghost, the largest value that any
    variable or product took, and its contract bounds that value by the word size.
  */
module NextPrime {
  import opened Arithmetic

  // ----- what the search promises -----

  predicate Divides(d: nat, n: nat)
    requires d > 0
  {
    n % d == 0
  }

  ghost predicate IsPrime(n: nat) {
    n >= 2 && forall d :: 2 <= d < n ==> !Divides(d, n)
  }

  ghost predicate IsLeastPrimeFrom(p: nat, n: nat) {
    IsPrime(p) && n <= p && forall m :: n <= m < p ==> !IsPrime(m)
  }

  /** No number in 2 .. b-1 divides n. */
  ghost predicate NoDivisorBelow(n: nat, b: nat) {
    forall d :: 2 <= d < b ==> !Divides(d, n)
  }

  /** The largest prime of the word, below which the search cannot overflow. */
  datatype Word = Word32 | Word64 {
    function Limit(): nat {
      if Word32? then 0xFFFF_FFFB else 0xFFFF_FFFF_FFFF_FFC5
    }

    function Modulus(): nat {
      if Word32? then 0x1_0000_0000 else 0x1_0000_0000_0000_0000
    }
  }

  datatype Outcome = Found(prime: nat) | Overflow

  // ----- the tables, in rows of twelve -----

  const P0: seq<nat> := [0, 2, 3, 5, 7, 11, 13, 17, 19, 23, 29, 31]
  const P1: seq<nat> := [37, 41, 43, 47, 53, 59, 61, 67, 71, 73, 79, 83]
  const P2: seq<nat> := [89, 97, 101, 103, 107, 109, 113, 127, 131, 137, 139, 149]
  const P3: seq<nat> := [151, 157, 163, 167, 173, 179, 181, 191, 193, 197, 199, 211]
  const SMALL_PRIMES: seq<nat> := P0 + P1 + P2 + P3

  const I0: seq<nat> := [1, 11, 13, 17, 19, 23, 29, 31, 37, 41, 43, 47]
  const I1: seq<nat> := [53, 59, 61, 67, 71, 73, 79, 83, 89, 97, 101, 103]
  const I2: seq<nat> := [107, 109, 113, 121, 127, 131, 137, 139, 143, 149, 151, 157]
  const I3: seq<nat> := [163, 167, 169, 173, 179, 181, 187, 191, 193, 197, 199, 209]
  const INDICES: seq<nat> := I0 + I1 + I2 + I3

  // The increments of the divisor, in the order in which the unrolled loop applies them.
  const W0: seq<nat> := [10, 2, 4, 2, 4, 6, 2, 6, 4, 2, 4, 6]
  const W1: seq<nat> := [6, 2, 6, 4, 2, 6, 4, 6, 8, 4, 2, 4]
  const W2: seq<nat> := [2, 4, 8, 6, 4, 6, 2, 4, 6, 2, 6, 6]
  const W3: seq<nat> := [4, 2, 4, 6, 2, 6, 4, 2, 4, 2, 10, 2]
  const WHEEL: seq<nat> := W0 + W1 + W2 + W3

  const N: nat := 48
  const M: nat := 48
  const L: nat := 210

  // ----- divisibility -----

  lemma MultipleIsDivided(d: nat, k: nat)
    requires d > 0
    ensures Divides(d, k * d) && k * d / d == k
  {
    DivideBack(k, d, 0);
  }

  lemma DividesTransitive(a: nat, d: nat, n: nat)
    requires a > 0 && d > 0 && Divides(a, d) && Divides(d, n)
    ensures Divides(a, n)
  {
    var x, y := d / a, n / d;
    assert d == x * a && n == y * d;
    assert n == (y * x) * a;
    MultipleIsDivided(a, y * x);
  }

  /** A composite divisor is never the least one. */
  lemma CompositeDoesNotDivide(n: nat, a: nat, d: nat)
    requires 2 <= a < d && Divides(a, d) && NoDivisorBelow(n, d)
    ensures NoDivisorBelow(n, d + 1)
  {
    if Divides(d, n) {
      DividesTransitive(a, d, n);
    }
  }

  /** Once n / i < i and nothing below i divides n, n is prime. */
  lemma PrimeBySquareRoot(n: nat, i: nat)
    requires n >= 2 && i > 0 && n / i < i && NoDivisorBelow(n, i)
    ensures IsPrime(n)
  {
    forall d | 2 <= d < n ensures !Divides(d, n) {
      if Divides(d, n) {
        var q := n / d;
        CofactorDivides(n, d);
        if d < i {
        } else if q < i {
        } else {
          ScaleMonotone(i, q, d);
          ScaleMonotone(i, d, i);
          ScaleMonotone(n / i + 1, i, i);
        }
      }
    }
  }

  lemma CofactorDivides(n: nat, d: nat)
    requires 2 <= d < n && Divides(d, n)
    ensures n == (n / d) * d && 2 <= n / d < n && Divides(n / d, n)
  {
    var q := n / d;
    if q <= 1 {
      ScaleMonotone(q, 1, d);
    } else {
      MultipleIsDivided(q, d);
      ScaleMonotone(2, d, q);
    }
  }

  // ----- what the tables hold -----

  predicate Coprime210(n: nat) {
    n % 2 != 0 && n % 3 != 0 && n % 5 != 0 && n % 7 != 0
  }

  predicate Hit7(n: nat) {
    n % 3 == 0 || n % 5 == 0 || n % 7 == 0
  }

  /** n is a proper multiple of 3, 5, 7, 11 or 13. */
  predicate Hit13(n: nat) {
    || (n % 3 == 0 && n > 3) || (n % 5 == 0 && n > 5) || (n % 7 == 0 && n > 7)
    || (n % 11 == 0 && n > 11) || (n % 13 == 0 && n > 13)
  }

  /** b = a + w, and the odd numbers strictly between are multiples of 3, 5 or 7. */
  predicate WheelGap(a: nat, w: nat, b: nat) {
    && a + w == b && a % 2 == 1 && w in {2, 4, 6, 8, 10} && !Hit7(a)
    && (w > 2 ==> Hit7(a + 2)) && (w > 4 ==> Hit7(a + 4))
    && (w > 6 ==> Hit7(a + 6)) && (w > 8 ==> Hit7(a + 8))
  }

  /** The odd numbers strictly between a and b are proper multiples of 3, 5, 7, 11 or 13. */
  predicate PrimeGap(a: nat, b: nat) {
    var w := b - a;
    && a % 2 == 1 && w in {2, 4, 6, 8, 10, 12, 14} && !Hit13(a)
    && (w > 2 ==> Hit13(a + 2)) && (w > 4 ==> Hit13(a + 4)) && (w > 6 ==> Hit13(a + 6))
    && (w > 8 ==> Hit13(a + 8)) && (w > 10 ==> Hit13(a + 10)) && (w > 12 ==> Hit13(a + 12))
  }

  function WheelEnd(j: nat): nat
    requires j < M
  {
    if j < 47 then INDICES[j + 1] else 211
  }

  lemma WheelRow0(j: nat)
    requires j < 12
    ensures WheelGap(I0[j], W0[j], if j < 11 then I0[j + 1] else I1[0])
  {
    match j
    case 0 => case 1 => case 2 => case 3 => case 4 => case 5 =>
    case 6 => case 7 => case 8 => case 9 => case 10 => case _ =>
  }

  lemma WheelRow1(j: nat)
    requires j < 12
    ensures WheelGap(I1[j], W1[j], if j < 11 then I1[j + 1] else I2[0])
  {
    match j
    case 0 => case 1 => case 2 => case 3 => case 4 => case 5 =>
    case 6 => case 7 => case 8 => case 9 => case 10 => case _ =>
  }

  lemma WheelRow2(j: nat)
    requires j < 12
    ensures WheelGap(I2[j], W2[j], if j < 11 then I2[j + 1] else I3[0])
  {
    match j
    case 0 => case 1 => case 2 => case 3 => case 4 => case 5 =>
    case 6 => case 7 => case 8 => case 9 => case 10 => case _ =>
  }

  lemma WheelRow3(j: nat)
    requires j < 12
    ensures WheelGap(I3[j], W3[j], if j < 11 then I3[j + 1] else 211)
  {
    match j
    case 0 => case 1 => case 2 => case 3 => case 4 => case 5 =>
    case 6 => case 7 => case 8 => case 9 => case 10 => case _ =>
  }

  /** Where an entry of a table of four rows stands. */
  lemma FourRows(a: seq<nat>, b: seq<nat>, c: seq<nat>, d: seq<nat>, j: nat)
    requires |a| == |b| == |c| == |d| == 12 && j < 48
    ensures (a + b + c + d)[j] ==
      if j < 12 then a[j] else if j < 24 then b[j - 12] else if j < 36 then c[j - 24] else d[j - 36]
  {
  }

  lemma WheelLookup(j: nat)
    requires j < M
    ensures |INDICES| == |WHEEL| == M
    ensures j < 12 ==> INDICES[j] == I0[j] && WHEEL[j] == W0[j] && WheelEnd(j) == if j < 11 then I0[j + 1] else I1[0]
    ensures 12 <= j < 24 ==>
      INDICES[j] == I1[j - 12] && WHEEL[j] == W1[j - 12] && WheelEnd(j) == if j < 23 then I1[j - 11] else I2[0]
    ensures 24 <= j < 36 ==>
      INDICES[j] == I2[j - 24] && WHEEL[j] == W2[j - 24] && WheelEnd(j) == if j < 35 then I2[j - 23] else I3[0]
    ensures 36 <= j ==>
      INDICES[j] == I3[j - 36] && WHEEL[j] == W3[j - 36] && WheelEnd(j) == if j < 47 then I3[j - 35] else 211
  {
    FourRows(I0, I1, I2, I3, j);
    FourRows(W0, W1, W2, W3, j);
    if j < 47 {
      FourRows(I0, I1, I2, I3, j + 1);
    }
  }

  lemma WheelTable(j: nat)
    requires j < M
    ensures |INDICES| == |WHEEL| == M
    ensures WheelGap(INDICES[j], WHEEL[j], WheelEnd(j))
  {
    WheelLookup(j);
    if j < 12 {
      WheelRow0(j);
    } else if j < 24 {
      WheelRow1(j - 12);
    } else if j < 36 {
      WheelRow2(j - 24);
    } else {
      WheelRow3(j - 36);
    }
  }

  lemma PrimeRow0(j: nat)
    requires 2 <= j < 12
    ensures PrimeGap(P0[j], if j < 11 then P0[j + 1] else P1[0])
  {
    match j { case 2 => case 3 => case 4 => case 5 => case 6 => case 7 => case 8 => case 9 => case 10 => case _ => }
  }

  lemma PrimeRow1(j: nat)
    requires j < 12
    ensures PrimeGap(P1[j], if j < 11 then P1[j + 1] else P2[0])
  {
    match j
    case 0 => case 1 => case 2 => case 3 => case 4 => case 5 =>
    case 6 => case 7 => case 8 => case 9 => case 10 => case _ =>
  }

  lemma PrimeRow2(j: nat)
    requires j < 12
    ensures PrimeGap(P2[j], if j < 11 then P2[j + 1] else P3[0])
  {
    match j
    case 0 => case 1 => case 2 => case 3 => case 4 => case 5 =>
    case 6 => case 7 => case 8 => case 9 => case 10 => case _ =>
  }

  lemma PrimeRow3(j: nat)
    requires j < 11
    ensures PrimeGap(P3[j], P3[j + 1])
  {
    match j
    case 0 => case 1 => case 2 => case 3 => case 4 => case 5 =>
    case 6 => case 7 => case 8 => case 9 => case _ =>
  }

  lemma PrimeTable(j: nat)
    requires 2 <= j < N - 1
    ensures |SMALL_PRIMES| == N
    ensures PrimeGap(SMALL_PRIMES[j], SMALL_PRIMES[j + 1])
  {
    if j < 12 {
      PrimeRow0(j);
    } else if j < 24 {
      PrimeRow1(j - 12);
    } else if j < 36 {
      PrimeRow2(j - 24);
    } else {
      PrimeRow3(j - 36);
    }
  }

  ghost predicate Increasing(s: seq<nat>) {
    forall i, j :: 0 <= i < j < |s| ==> s[i] < s[j]
  }

  lemma {:induction false} StepwiseIncreasing(s: seq<nat>)
    requires forall i :: 0 <= i < |s| - 1 ==> s[i] < s[i + 1]
    ensures Increasing(s)
  {
    if |s| <= 1 {
    } else {
      var t := s[..|s| - 1];
      StepwiseIncreasing(t);
      forall i, j | 0 <= i < j < |s| ensures s[i] < s[j] {
        if j == |s| - 1 {
          assert s[j - 1] < s[j - 1 + 1];
          assert i < j - 1 ==> t[i] < t[j - 1];
        } else {
          assert t[i] < t[j];
        }
      }
    }
  }

  lemma SmallPrimesIncreasing()
    ensures |SMALL_PRIMES| == N && Increasing(SMALL_PRIMES)
  {
    forall i | 0 <= i < N - 1 ensures SMALL_PRIMES[i] < SMALL_PRIMES[i + 1] {
      if i >= 2 {
        PrimeTable(i);
      }
    }
    StepwiseIncreasing(SMALL_PRIMES);
  }

  lemma IndicesIncreasing()
    ensures |INDICES| == M && Increasing(INDICES)
  {
    forall i | 0 <= i < M - 1 ensures INDICES[i] < INDICES[i + 1] {
      WheelTable(i);
    }
    StepwiseIncreasing(INDICES);
  }

  // ----- what the tables mean -----

  lemma RemainderPeriod(m: nat, t: nat, r: nat)
    requires m > 0 && Divides(m, t)
    ensures (t + r) % m == 0 <==> r % m == 0
  {
    var x, y, z := t / m, r / m, (t + r) / m;
    if r % m == 0 {
      MultipleIsDivided(m, x + y);
      assert t + r == (x + y) * m;
    }
    if (t + r) % m == 0 {
      assert r == (z - x) * m;
      if z < x {
        ScaleMonotone(z - x, -1, m);
      } else {
        MultipleIsDivided(m, z - x);
      }
    }
  }

  lemma CoprimePeriod(k: nat, r: nat)
    ensures Coprime210(L * k + r) <==> Coprime210(r)
  {
    var t := L * k;
    MultipleIsDivided(2, 105 * k);
    MultipleIsDivided(3, 70 * k);
    MultipleIsDivided(5, 42 * k);
    MultipleIsDivided(7, 30 * k);
    RemainderPeriod(2, t, r);
    RemainderPeriod(3, t, r);
    RemainderPeriod(5, t, r);
    RemainderPeriod(7, t, r);
  }

  lemma PotentialPrimeIsCoprime(k: nat, j: nat)
    requires j < M
    ensures Coprime210(L * k + INDICES[j])
  {
    WheelTable(j);
    CoprimePeriod(k, INDICES[j]);
  }

  lemma OddGap(a: nat, w: nat, x: nat)
    requires a % 2 == 1 && x % 2 == 1 && a < x < a + w
    ensures x - a >= 2 && (x - a) % 2 == 0
  {
  }

  lemma WheelGapCovers(a: nat, w: nat, b: nat, x: nat)
    requires WheelGap(a, w, b) && a < x < b
    ensures !Coprime210(x)
  {
    if x % 2 == 1 {
      OddGap(a, w, x);
      assert Hit7(x);
    }
  }

  /** Between two neighbouring potential primes every number has a factor 2, 3, 5 or 7. */
  lemma NoPotentialPrimeBetween(k: nat, j: nat, x: nat)
    requires j < M && L * k + INDICES[j] < x < L * k + WheelEnd(j)
    ensures !Coprime210(x)
  {
    WheelTable(j);
    WheelGapCovers(INDICES[j], WHEEL[j], WheelEnd(j), x - L * k);
    CoprimePeriod(k, x - L * k);
  }

  lemma SmallFactor(x: nat) returns (q: nat)
    requires !Coprime210(x)
    ensures q in {2, 3, 5, 7} && Divides(q, x)
  {
    q := if x % 2 == 0 then 2 else if x % 3 == 0 then 3 else if x % 5 == 0 then 5 else 7;
  }

  lemma NotCoprimeDoesNotDivide(n: nat, x: nat)
    requires Coprime210(n) && !Coprime210(x) && x > 0
    ensures !Divides(x, n)
  {
    var q := SmallFactor(x);
    if Divides(x, n) {
      DividesTransitive(q, x, n);
    }
  }

  lemma NotCoprimeNotPrime(x: nat)
    requires x > 7 && !Coprime210(x)
    ensures !IsPrime(x)
  {
    var q := SmallFactor(x);
  }

  lemma PrimeGapFactor(a: nat, b: nat, x: nat) returns (q: nat)
    requires PrimeGap(a, b) && 3 <= a < x < b
    ensures 2 <= q < x && q <= 13 && Divides(q, x)
  {
    if x % 2 == 0 {
      q := 2;
    } else {
      OddGap(a, b - a, x);
      assert Hit13(x);
      q := if x % 3 == 0 && x > 3 then 3 else if x % 5 == 0 && x > 5 then 5
           else if x % 7 == 0 && x > 7 then 7 else if x % 11 == 0 && x > 11 then 11 else 13;
    }
  }

  lemma FactorBelow17(d: nat) returns (q: nat)
    requires 2 <= d < 17
    ensures q in {2, 3, 5, 7, 11, 13} && Divides(q, d)
  {
    q := if d % 2 == 0 then 2 else if d % 3 == 0 then 3 else if d % 5 == 0 then 5
         else if d % 7 == 0 then 7 else d;
  }

  lemma TinyPrimes()
    ensures IsPrime(2) && IsPrime(3) && IsPrime(5) && IsPrime(7) && IsPrime(11) && IsPrime(13)
  {
  }

  lemma PrimeBelow289(p: nat)
    requires 16 < p < 289 && p % 2 == 1 && !Hit13(p)
    ensures IsPrime(p)
  {
    forall d | 2 <= d < 17 ensures !Divides(d, p) {
      var q := FactorBelow17(d);
      if Divides(d, p) {
        DividesTransitive(q, d, p);
      }
    }
    PrimeBySquareRoot(p, 17);
  }

  /** The entries of the table after the first are prime, and no prime is missing from it. */
  lemma SmallPrimesArePrime(j: nat)
    requires 1 <= j < N
    ensures |SMALL_PRIMES| == N && IsPrime(SMALL_PRIMES[j]) && SMALL_PRIMES[j] <= 211
  {
    SmallPrimesIncreasing();
    TinyPrimes();
    if 7 <= j {
      if j < N - 1 {
        PrimeTable(j);
      }
      assert SMALL_PRIMES[6] == 13 && SMALL_PRIMES[47] == 211;
      PrimeBelow289(SMALL_PRIMES[j]);
    }
  }

  lemma NoSmallPrimeBetween(j: nat, x: nat)
    requires 1 <= j < N - 1 && SMALL_PRIMES[j] < x < SMALL_PRIMES[j + 1]
    ensures !IsPrime(x)
  {
    SmallPrimesIncreasing();
    if j >= 2 {
      PrimeTable(j);
      var q := PrimeGapFactor(SMALL_PRIMES[j], SMALL_PRIMES[j + 1], x);
    }
  }

  /** Composites between two neighbouring small primes add nothing to the divisors to try. */
  lemma {:induction false} SkipComposites(n: nat, a: nat, b: nat, x: nat)
    requires PrimeGap(a, b) && 3 <= a < x <= b && NoDivisorBelow(n, a + 1)
    ensures NoDivisorBelow(n, x)
    decreases x
  {
    if x == a + 1 {
    } else {
      SkipComposites(n, a, b, x - 1);
      var q := PrimeGapFactor(a, b, x - 1);
      CompositeDoesNotDivide(n, q, x - 1);
    }
  }

  lemma CoprimeHasNoDivisorBelow11(n: nat)
    requires Coprime210(n)
    ensures NoDivisorBelow(n, 11)
  {
    forall d | 2 <= d < 11 ensures !Divides(d, n) {
      var q := FactorBelow17(d);
      if Divides(d, n) {
        DividesTransitive(q, d, n);
      }
    }
  }

  lemma NextSmallDivisor(n: nat, j: nat)
    requires 5 <= j < N - 1 && |SMALL_PRIMES| == N && SMALL_PRIMES[j] >= 11
    requires NoDivisorBelow(n, SMALL_PRIMES[j]) && !Divides(SMALL_PRIMES[j], n)
    ensures NoDivisorBelow(n, SMALL_PRIMES[j + 1]) && SMALL_PRIMES[j] < SMALL_PRIMES[j + 1]
  {
    PrimeTable(j);
    SkipComposites(n, SMALL_PRIMES[j], SMALL_PRIMES[j + 1], SMALL_PRIMES[j + 1]);
  }

  /** The test for an even division that the source uses. */
  lemma EvenDivision(n: nat, d: nat)
    requires d > 0
    ensures 0 <= (n / d) * d <= n
    ensures n == (n / d) * d <==> Divides(d, n)
  {
  }

  lemma SkipNonCoprimes(n: nat, k: nat, j: nat)
    requires Coprime210(n) && j < M && NoDivisorBelow(n, L * k + INDICES[j] + 1)
    ensures NoDivisorBelow(n, L * k + WheelEnd(j))
  {
    forall d | 2 <= d < L * k + WheelEnd(j) ensures !Divides(d, n) {
      if d > L * k + INDICES[j] {
        NoPotentialPrimeBetween(k, j, d);
        NotCoprimeDoesNotDivide(n, d);
      }
    }
  }

  // ----- Euclid: the search has an end -----

  function Factorial(n: nat): (f: nat)
    ensures f >= 1
  {
    if n == 0 then 1 else n * Factorial(n - 1)
  }

  lemma {:induction false} DividesFactorial(d: nat, n: nat)
    requires 1 <= d <= n
    ensures Divides(d, Factorial(n))
  {
    var f := Factorial(n - 1);
    if d == n {
      MultipleIsDivided(d, f);
      assert Factorial(n) == f * d;
    } else {
      DividesFactorial(d, n - 1);
      MultipleIsDivided(f, n);
      DividesTransitive(d, f, Factorial(n));
    }
  }

  lemma {:induction false} LeastDivisor(n: nat, d: nat) returns (p: nat)
    requires 2 <= d <= n && NoDivisorBelow(n, d)
    ensures IsPrime(p) && Divides(p, n)
    decreases n - d
  {
    if d == n {
      MultipleIsDivided(n, 1);
      p := n;
    } else if Divides(d, n) {
      p := d;
      forall e | 2 <= e < d ensures !Divides(e, d) {
        if Divides(e, d) {
          DividesTransitive(e, d, n);
        }
      }
    } else {
      p := LeastDivisor(n, d + 1);
    }
  }

  lemma SuccessorNotDivided(d: nat, f: nat)
    requires d >= 2 && Divides(d, f)
    ensures !Divides(d, f + 1)
  {
    if Divides(d, f + 1) {
      var x, y := f / d, (f + 1) / d;
      assert (y - x) * d == 1;
      if y <= x {
        ScaleMonotone(y - x, 0, d);
      } else {
        ScaleMonotone(1, y - x, d);
      }
    }
  }

  lemma PrimeAbove(n: nat) returns (p: nat)
    ensures IsPrime(p) && p > n
  {
    var f := Factorial(n);
    p := LeastDivisor(f + 1, 2);
    if p <= n {
      DividesFactorial(p, n);
      SuccessorNotDivided(p, f);
    }
  }

  lemma LeastPrimeExists(n: nat) returns (p: nat)
    ensures IsLeastPrimeFrom(p, n)
  {
    var q := PrimeAbove(n);
    p := n;
    while !IsPrime(p)
      invariant n <= p <= q
      invariant forall m :: n <= m < p ==> !IsPrime(m)
      decreases q - p
    {
      p := p + 1;
    }
  }

  // ----- the search -----

  /** std::lower_bound: the first entry that is not below v. */
  method LowerBound(a: seq<nat>, v: nat) returns (first: nat)
    requires Increasing(a)
    ensures first <= |a|
    ensures forall i :: 0 <= i < first ==> a[i] < v
    ensures forall i :: first <= i < |a| ==> a[i] >= v
  {
    first := 0;
    var len: nat := |a|;
    while len != 0
      invariant first + len <= |a|
      invariant forall i :: 0 <= i < first ==> a[i] < v
      invariant forall i :: first + len <= i < |a| ==> a[i] >= v
    {
      var half := len / 2;
      var m := first + half;
      if a[m] < v {
        first := m + 1;
        len := len - (half + 1);
      } else {
        len := half;
      }
    }
  }

  function Max(a: nat, b: nat): nat {
    if a < b then b else a
  }

  lemma FirstSmallDivisor()
    ensures |SMALL_PRIMES| == N && SMALL_PRIMES[5] == 11 && SMALL_PRIMES[N - 1] == 211
  {
  }

  lemma EvenlyDividedIsComposite(n: nat, d: nat)
    requires 2 <= d <= n / d && Divides(d, n)
    ensures !IsPrime(n)
  {
    ScaleMonotone(2, n / d, d);
    EvenDivision(n, d);
  }

  /** One division of the search: the quotient, and whether it is even. */
  method Divide(n: nat, d: nat) returns (q: nat, even: bool, ghost product: nat)
    requires d > 0
    ensures q == n / d
    ensures even <==> Divides(d, n)
    ensures product <= n
  {
    q := n / d;
    EvenDivision(n, d);
    product := q * d;
    even := n == q * d;
  }

  /** Divides n by the primes 11 .. 199 and then by every potential prime from 211 on, until
      a division is even or the quotient falls below the divisor. */
  method TrialDivision(n: nat) returns (prime: bool, ghost peak: nat)
    requires n >= 211 && Coprime210(n)
    ensures prime <==> IsPrime(n)
    ensures peak <= n
  {
    peak := n;
    FirstSmallDivisor();
    CoprimeHasNoDivisorBelow11(n);
    var j := 5;
    while j < N - 1
      invariant 5 <= j <= N - 1 && 11 <= SMALL_PRIMES[j] <= 211
      invariant NoDivisorBelow(n, SMALL_PRIMES[j])
      invariant peak <= n
    {
      var p := SMALL_PRIMES[j];
      var q: nat, even: bool;
      ghost var product: nat;
      q, even, product := Divide(n, p);
      peak := Max(peak, product);
      if q < p {
        PrimeBySquareRoot(n, p);
        return true, peak;
      }
      if even {
        EvenlyDividedIsComposite(n, p);
        return false, peak;
      }
      NextSmallDivisor(n, j);
      SmallPrimesArePrime(j + 1);
      j := j + 1;
    }
    ghost var top: nat;
    prime, top := PotentialPrimeDivision(n);
    peak := Max(peak, top);
  }

  lemma NextDivisorIsSmall(n: nat, i: nat, w: nat)
    requires i >= 211 && n / i >= i && w <= 10
    ensures i + w <= n
  {
    ScaleMonotone(211, n / i, i);
    EvenDivision(n, i);
  }

  /** The potential prime at place j of plane k. */
  function Potential(k: nat, j: nat): nat
    requires j < M
  {
    L * k + INDICES[j]
  }

  lemma FirstPotential()
    ensures Potential(1, 0) == 211
  {
  }

  lemma NextPotential(n: nat, k: nat, j: nat)
    requires j < M && |WHEEL| == M && Coprime210(n) && Potential(k, j) >= 211
    requires NoDivisorBelow(n, Potential(k, j)) && !Divides(Potential(k, j), n)
    ensures 0 < WHEEL[j] <= 10 && NoDivisorBelow(n, Potential(k, j) + WHEEL[j])
    ensures Potential(k, j) + WHEEL[j] == if j < M - 1 then Potential(k, j + 1) else Potential(k + 1, 0)
  {
    WheelTable(j);
    SkipNonCoprimes(n, k, j);
  }

  /** The unrolled loop, with its forty-eight increments taken from the table. */
  method PotentialPrimeDivision(n: nat) returns (prime: bool, ghost peak: nat)
    requires n >= 211 && Coprime210(n) && NoDivisorBelow(n, 211)
    ensures prime <==> IsPrime(n)
    ensures peak <= n
  {
    peak := n;
    var i, j := 211, 0;
    ghost var k := 1;
    FirstPotential();
    while true
      invariant j < M && 211 <= i <= n && i == Potential(k, j)
      invariant NoDivisorBelow(n, i)
      invariant peak <= n
      decreases n - i
    {
      var q: nat, even: bool;
      ghost var product: nat;
      q, even, product := Divide(n, i);
      peak := Max(peak, product);
      if q < i {
        PrimeBySquareRoot(n, i);
        return true, peak;
      }
      if even {
        EvenlyDividedIsComposite(n, i);
        return false, peak;
      }
      NextPotential(n, k, j);
      NextDivisorIsSmall(n, i, WHEEL[j]);
      i := i + WHEEL[j];
      peak := Max(peak, i);
      j := j + 1;
      if j == M {
        j := 0;
        k := k + 1;
      }
    }
  }

  lemma PotentialPrimesFrom(k: nat, j: nat, n: nat, m: nat)
    requires j < M && n <= m < Potential(k, j) && 7 < n && L * k <= n
    requires forall i :: 0 <= i < j ==> INDICES[i] < n - L * k
    ensures !IsPrime(m)
  {
    if j == 0 {
      assert m == L * k;
      CoprimePeriod(k, 0);
      assert !Coprime210(m);
    } else {
      NoPotentialPrimeBetween(k, j - 1, m);
    }
    NotCoprimeNotPrime(m);
  }

  /** The first potential prime at or above n; no prime is passed over. */
  method FirstCandidate(n: nat) returns (k: nat, j: nat)
    requires n > 211
    ensures j < M && Potential(k, j) >= n && L * k <= n
    ensures forall m :: n <= m < Potential(k, j) ==> !IsPrime(m)
  {
    k := n / L;
    IndicesIncreasing();
    j := LowerBound(INDICES, n - k * L);
    assert INDICES[47] == 209;
    forall m | n <= m < Potential(k, j) ensures !IsPrime(m) {
      PotentialPrimesFrom(k, j, n, m);
    }
  }

  /** The next potential prime after place j of plane k; no prime is passed over. */
  method NextCandidate(k: nat, j: nat) returns (k': nat, j': nat)
    requires j < M && Potential(k, j) > 7
    ensures j' < M && Potential(k, j) < Potential(k', j')
    ensures forall m :: Potential(k, j) < m < Potential(k', j') ==> !IsPrime(m)
  {
    k', j' := k, j + 1;
    WheelTable(j);
    if j' == M {
      k', j' := k + 1, 0;
    }
    forall m | Potential(k, j) < m < Potential(k', j') ensures !IsPrime(m) {
      NoPotentialPrimeBetween(k, j, m);
      NotCoprimeNotPrime(m);
    }
  }

  method SmallPrimeFrom(n: nat) returns (p: nat)
    requires n <= 211
    ensures n == 0 ==> p == 0
    ensures n > 0 ==> IsLeastPrimeFrom(p, n)
    ensures p <= 211
  {
    SmallPrimesIncreasing();
    var k := LowerBound(SMALL_PRIMES, n);
    assert SMALL_PRIMES[47] == 211 && SMALL_PRIMES[0] == 0;
    p := SMALL_PRIMES[k];
    if n > 0 {
      SmallPrimesArePrime(k);
      forall m | n <= m < p ensures !IsPrime(m) {
        if k > 1 {
          NoSmallPrimeBetween(k - 1, m);
        }
      }
    }
  }

  /** Returns 0 for 0, the least prime at or above n otherwise, unless n is above the largest
      prime of the word. */
  method NextPrime(word: Word, n: nat) returns (r: Outcome, ghost peak: nat)
    requires n < word.Modulus()
    ensures r == Overflow <==> n > word.Limit()
    ensures n == 0 ==> r == Found(0)
    ensures 0 < n <= word.Limit() ==> IsLeastPrimeFrom(r.prime, n)
    ensures n <= word.Limit() && IsPrime(word.Limit()) ==> peak <= word.Limit()
  {
    if n <= 211 {
      var p := SmallPrimeFrom(n);
      return Found(p), Max(n, p);
    }
    if n > word.Limit() {
      return Overflow, n;
    }
    ghost var least := LeastPrimeExists(n);
    LimitIsLarge(word, n, least);
    var k: nat, j: nat := FirstCandidate(n);
    var c := Potential(k, j);
    peak := Max(L * k, c);
    while true
      invariant j < M && c == Potential(k, j) && n <= c <= least && peak <= least
      invariant forall m :: n <= m < c ==> !IsPrime(m)
      decreases least - c
    {
      var prime: bool;
      ghost var top: nat;
      PotentialPrimeIsCoprime(k, j);
      prime, top := TrialDivision(c);
      peak := Max(peak, top);
      if prime {
        return Found(c), peak;
      }
      k, j := NextCandidate(k, j);
      c := Potential(k, j);
      peak := Max(peak, Max(L * k, c));
    }
  }

  lemma LimitIsLarge(word: Word, n: nat, least: nat)
    requires n <= word.Limit() && IsLeastPrimeFrom(least, n)
    ensures IsPrime(word.Limit()) ==> least <= word.Limit()
  {
  }
}
