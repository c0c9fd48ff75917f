/** The sieve, Miller-Rabin and the primality test of key generation. */
module RsaPrimality {
  import opened ModArith
  import opened Primes

  const SIEVE: nat := 2048
  const ROOT: nat := 45

  // ----- the sieve

  /** No divisor of m below i except m itself. */
  ghost predicate Survives(m: nat, i: nat)
  {
    m >= 2 && forall d: int :: 2 <= d < i && d < m ==> !Divides(d, m)
  }

  lemma SurvivorsArePrime(m: nat)
    requires m < SIEVE
    ensures Survives(m, ROOT + 1) <==> Prime(m)
  {
    if Survives(m, ROOT + 1) {
      forall d: int | 2 <= d < m ensures !Divides(d, m) {
        if Divides(d, m) {
          SmallerDivisor(m, d);
        }
      }
    }
  }

  /** A composite below the square of i has a divisor below i. */
  lemma SmallerDivisor(m: nat, d: nat)
    requires m < SIEVE && 2 <= d < m && Divides(d, m)
    ensures d <= ROOT || (2 <= m / d <= ROOT && m / d < m && Divides(m / d, m))
  {
    var k := m / d;
    assert m == d * k;
    if d > ROOT {
      if k > ROOT {
        MulLe(ROOT + 1, d, k);
        assert false;
      }
      if k <= 1 {
        MulLe(k, 1, d);
        assert false;
      }
      MulLe(2, d, k);
      RemainderUnique(d, 0, k);
    }
  }

  /** A multiple of i below its square has a smaller divisor. */
  lemma SmallMultiple(m: nat, i: nat)
    requires 2 <= i < m < i * i && Divides(i, m)
    ensures !Survives(m, i)
  {
    var k := m / i;
    assert m == i * k;
    if k >= i {
      MulLe(i, k, i);
      assert false;
    }
    if k <= 1 {
      MulLe(k, 1, i);
      assert false;
    }
    RemainderUnique(i, 0, k);
    assert Divides(k, m);
  }

  /** A number with a smaller divisor adds nothing to the sieve. */
  lemma CompositeStep(m: nat, i: nat)
    requires i >= 2 && !Survives(i, i)
    ensures Survives(m, i + 1) <==> Survives(m, i)
  {
    var d: int :| 2 <= d < i && Divides(d, i);
    if Survives(m, i) && i < m && Divides(i, m) {
      DividesTrans(d, i, m);
      assert false;
    }
  }

  lemma DividesTrans(d: int, i: int, m: int)
    requires d > 1 && i > 1 && Divides(d, i) && Divides(i, m)
    ensures Divides(d, m)
  {
    assert m == i * (m / i);
    SmallMod(0, d);
    MulCong(i, 0, m / i, m / i, d);
  }

  ghost predicate Sieved(sieve: array<bool>, i: nat)
    reads sieve
  {
    sieve.Length == SIEVE && forall m: nat :: m < SIEVE ==> (sieve[m] <==> Survives(m, i))
  }

  /** sieve[i * i :: i] = 0, for an i that no smaller number divides. */
  method StrikeMultiples(sieve: array<bool>, i: nat)
    requires Sieved(sieve, i) && 2 <= i && Survives(i, i)
    modifies sieve
    ensures Sieved(sieve, i + 1)
  {
    hide Survives;
    SquareAbove(i);
    var square := i * i;
    var m := square;
    ghost var k: nat := i;
    while m < SIEVE
      invariant m == i * k && square <= m
      invariant forall x: nat :: x < SIEVE && (x < square || x >= m) ==> sieve[x] == old(sieve[x])
      invariant forall x: nat :: x < SIEVE && square <= x < m ==> sieve[x] == (old(sieve[x]) && !Divides(i, x))
      decreases SIEVE - m
    {
      MultipleDivides(i, k);
      BetweenMultiples(i, k);
      sieve[m] := false;
      m := m + i;
      k := k + 1;
    }
    forall x: nat | x < SIEVE
      ensures (Survives(x, i) && (x < square || !Divides(i, x))) == Survives(x, i + 1)
    {
      Struck(x, i);
    }
  }

  lemma Struck(x: nat, i: nat)
    requires 2 <= i && Survives(i, i)
    ensures (Survives(x, i) && (x < i * i || !Divides(i, x))) == Survives(x, i + 1)
  {
    SquareAbove(i);
    if i < x < i * i && Divides(i, x) {
      SmallMultiple(x, i);
    }
  }

  lemma MultipleDivides(i: nat, k: nat)
    requires i >= 2
    ensures Divides(i, i * k)
  {
    RemainderUnique(k, 0, i);
  }

  lemma BetweenMultiples(i: nat, k: nat)
    requires i >= 2
    ensures forall x: nat :: i * k < x < i * k + i ==> !Divides(i, x)
  {
    forall x: nat | i * k < x < i * k + i ensures !Divides(i, x) {
      RemainderUnique(k, x - i * k, i);
    }
  }

  lemma SquareAbove(i: nat)
    requires i >= 2
    ensures i * i > i
  {
    MulLe(2, i, i);
  }

  /** _build_small_primes: exactly the primes below 2048, in ascending order. */
  method BuildSmallPrimes() returns (primes: seq<nat>)
    ensures forall p: nat :: p in primes <==> p < SIEVE && Prime(p)
    ensures forall i, j :: 0 <= i < j < |primes| ==> primes[i] < primes[j]
  {
    var sieve := new bool[SIEVE](i => i >= 2);
    var i := 2;
    while i <= ROOT
      invariant 2 <= i <= ROOT + 1 && Sieved(sieve, i)
    {
      if sieve[i] {
        StrikeMultiples(sieve, i);
      } else {
        forall m: nat | m < SIEVE ensures Survives(m, i + 1) <==> Survives(m, i) {
          CompositeStep(m, i);
        }
      }
      i := i + 1;
    }
    primes := [];
    var p := 0;
    while p < SIEVE
      invariant 0 <= p <= SIEVE && Sieved(sieve, ROOT + 1)
      invariant forall m: nat :: m in primes <==> m < p && Prime(m)
      invariant forall i, j :: 0 <= i < j < |primes| ==> primes[i] < primes[j]
    {
      SurvivorsArePrime(p);
      AppendNext(primes, p);
      if sieve[p] {
        primes := primes + [p];
      }
      p := p + 1;
    }
  }

  lemma AppendNext(primes: seq<nat>, p: nat)
    requires forall m: nat :: m in primes ==> m < p
    requires forall i, j :: 0 <= i < j < |primes| ==> primes[i] < primes[j]
    ensures forall m: nat :: m in primes + [p] <==> m in primes || m == p
    ensures forall i, j :: 0 <= i < j <= |primes| ==> (primes + [p])[i] < (primes + [p])[j]
  {
    forall i, j | 0 <= i < j <= |primes| ensures (primes + [p])[i] < (primes + [p])[j] {
      assert primes[i] in primes;
    }
  }

  // ----- Miller-Rabin

  /** The successive squares of a^d. */
  function Square(n: int, a: int, d: nat, j: nat): (x: int)
    requires n > 1
    ensures 0 <= x < n
  {
    if j == 0 then Pow(a, d) % n else Square(n, a, d, j - 1) * Square(n, a, d, j - 1) % n
  }

  lemma SquareNext(n: int, a: int, d: nat, j: nat)
    requires n > 1
    ensures Square(n, a, d, j + 1) == Square(n, a, d, j) * Square(n, a, d, j) % n
  {}

  lemma {:induction false} SquareIsPower(n: Modulus, a: int, d: nat, j: nat)
    ensures Exp2(j) * d >= 0
    ensures Square(n, a, d, j) == Pow(a, Exp2(j) * d) % n
  {
    MulLe(0, Exp2(j), d);
    if j > 0 {
      SquareIsPower(n, a, d, j - 1);
      var h := Exp2(j - 1) * d;
      assert Exp2(j) * d == 2 * h;
      ModMod(Pow(a, h), n);
      PowDouble(a, h, Square(n, a, d, j - 1), Square(n, a, d, j - 1) * Square(n, a, d, j - 1), n);
    }
  }

  /** n is a strong probable prime to base a, where n - 1 == 2^r d. */
  ghost predicate StrongProbable(n: int, a: int, d: nat, r: nat)
    requires n > 1
  {
    Square(n, a, d, 0) == 1 || Square(n, a, d, 0) == n - 1 || exists j: nat :: 1 <= j < r && Square(n, a, d, j) == n - 1
  }

  /** The only square roots of one modulo a prime. */
  lemma RootsOfOne(x: int, p: int)
    requires Prime(p) && 0 <= x < p && x * x % p == 1
    ensures x == 1 || x == p - 1
  {
    SmallMod(0, p);
    SmallMod(1, p);
    AddCong(x * x, 1, 1, 1, p);
    assert (x - 1) * (x + 1) == x * x - 1;
    Euclid(x - 1, x + 1, p);
    if (x - 1) % p == 0 && x != 0 {
      SmallMod(x - 1, p);
    }
    if (x + 1) % p == 0 && x + 1 < p {
      SmallMod(x + 1, p);
    }
    TimesZero(x, x);
  }

  /** If the j-th square is one, the chain passed through -1 or started at 1. */
  lemma {:induction false} ChainEndsAtOne(n: int, a: int, d: nat, j: nat)
    requires Prime(n) && Square(n, a, d, j) == 1
    ensures Square(n, a, d, 0) == 1 || exists i: nat :: 0 <= i < j && Square(n, a, d, i) == n - 1
  {
    hide Square;
    if j > 0 {
      SquareNext(n, a, d, j - 1);
      RootsOfOne(Square(n, a, d, j - 1), n);
      if Square(n, a, d, j - 1) == 1 {
        ChainEndsAtOne(n, a, d, j - 1);
      }
    }
  }

  /** A prime is a strong probable prime to every base. */
  lemma PrimeIsStrong(n: int, a: int, d: nat, r: nat)
    requires Prime(n) && 2 <= a <= n - 2 && Exp2(r) * d == n - 1
    ensures StrongProbable(n, a, d, r)
  {
    SmallMod(a, n);
    Fermat(a, n);
    SquareIsPower(n, a, d, r);
    ChainEndsAtOne(n, a, d, r);
  }

  /** _miller_rabin with the drawn bases: it accepts exactly the strong probable primes
      to all of them, hence every prime. */
  method MillerRabin(n: int, bases: seq<int>) returns (ok: bool)
    requires n > 3 && forall i :: 0 <= i < |bases| ==> 2 <= bases[i] <= n - 2
    ensures exists r: nat, d: nat ::
              Odd(n, r, d) && (ok <==> forall i :: 0 <= i < |bases| ==> StrongProbable(n, bases[i], d, r))
    ensures Prime(n) ==> ok
  {
    var d: nat := n - 1;
    var r: nat := 0;
    while d % 2 == 0
      invariant d >= 1 && Exp2(r) * d == n - 1
      decreases d
    {
      Halve(d, r);
      d := d / 2;
      r := r + 1;
    }
    assert Odd(n, r, d);
    var k := 0;
    while k < |bases|
      invariant 0 <= k <= |bases|
      invariant forall i :: 0 <= i < k ==> StrongProbable(n, bases[i], d, r)
    {
      var strong := TestBase(n, bases[k], d, r);
      if !strong {
        if Prime(n) {
          PrimeIsStrong(n, bases[k], d, r);
        }
        return false;
      }
      k := k + 1;
    }
    return true;
  }

  ghost predicate Odd(n: int, r: nat, d: nat)
  {
    d % 2 == 1 && Exp2(r) * d == n - 1
  }

  lemma Halve(d: nat, r: nat)
    requires d % 2 == 0
    ensures Exp2(r + 1) * (d / 2) == Exp2(r) * d
  {
    assert d == 2 * (d / 2);
    assert 2 * Exp2(r) * (d / 2) == Exp2(r) * (2 * (d / 2));
  }

  /** One round of _miller_rabin. */
  method TestBase(n: int, a: int, d: nat, r: nat) returns (strong: bool)
    requires n > 3
    ensures strong <==> StrongProbable(n, a, d, r)
  {
    var x := Pow(a, d) % n;
    assert x == Square(n, a, d, 0);
    hide Square;
    if x == 1 || x == n - 1 {
      return true;
    }
    var j: nat := 0;
    while j < r - 1
      invariant j <= r && x == Square(n, a, d, j)
      invariant forall i: nat :: 0 <= i <= j ==> Square(n, a, d, i) != n - 1
      invariant r >= 1 ==> j <= r - 1
    {
      SquareNext(n, a, d, j);
      x := x * x % n;
      j := j + 1;
      if x == n - 1 {
        return true;
      }
    }
    return false;
  }

  /** n has a prime factor below the sieve. */
  ghost predicate SmallFactor(n: int)
  {
    exists p: nat :: p < SIEVE && Prime(p) && Divides(p, n)
  }

  /** _is_probable_prime: never rejects a prime, and is exact for numbers with a prime
      factor below 2048. */
  method IsProbablePrime(n: int, bases: seq<int>, primes: seq<nat>) returns (ok: bool)
    requires forall p: nat :: p in primes <==> p < SIEVE && Prime(p)
    requires forall i, j :: 0 <= i < j < |primes| ==> primes[i] < primes[j]
    requires n > 3 ==> forall i :: 0 <= i < |bases| ==> 2 <= bases[i] <= n - 2
    ensures Prime(n) ==> ok
    ensures n < SIEVE || SmallFactor(n) ==> (ok <==> Prime(n))
  {
    if n < 2 {
      return false;
    }
    var k := 0;
    while k < |primes|
      invariant 0 <= k <= |primes|
      invariant forall i :: 0 <= i < k ==> Prime(primes[i]) && !Divides(primes[i], n)
    {
      assert primes[k] in primes;
      if n % primes[k] == 0 {
        FirstFactor(n, primes, k);
        return n == primes[k];
      }
      k := k + 1;
    }
    NoSmallFactor(n, primes);
    ok := MillerRabin(n, bases);
  }

  /** Only a prime number is divisible by a prime without being composite. */
  lemma FirstFactor(n: int, primes: seq<nat>, k: nat)
    requires n >= 2 && k < |primes| && Prime(primes[k]) && Divides(primes[k], n)
    ensures Prime(n) <==> n == primes[k]
  {
    if n != primes[k] {
      assert n == primes[k] * (n / primes[k]);
      if n < primes[k] {
        SmallMod(n, primes[k]);
      }
    }
  }

  /** Every number has a prime factor that is at most itself. */
  lemma {:induction false} PrimeFactor(n: int) returns (p: nat)
    requires n >= 2
    ensures p <= n && Prime(p) && Divides(p, n)
    decreases n
  {
    if Prime(n) {
      p := n;
      RemainderUnique(1, 0, n);
    } else {
      var d: int :| 2 <= d < n && Divides(d, n);
      p := PrimeFactor(d);
      DividesTrans(p, d, n);
    }
  }

  lemma NoSmallFactor(n: int, primes: seq<nat>)
    requires n >= 2 && forall p: nat :: p in primes <==> p < SIEVE && Prime(p)
    requires forall i :: 0 <= i < |primes| ==> Prime(primes[i]) && !Divides(primes[i], n)
    ensures n >= SIEVE && !SmallFactor(n)
  {
    forall p: nat | p < SIEVE && Prime(p) ensures !Divides(p, n) {
      assert p in primes;
    }
    if n < SIEVE {
      var p := PrimeFactor(n);
      assert false;
    }
  }
}
