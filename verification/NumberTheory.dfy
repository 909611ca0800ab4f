/** The arithmetic behind seeking: congruences, inverses, Fermat's little theorem and the
    Chinese remainder theorem for two primes. */
module NumberTheory {

  // ----- division and remainders

  lemma MulAtLeast(n: int, d: int)
    requires n > 0 && d >= 1
    ensures n * d >= n
  {
  }

  lemma MulMonotone(a: nat, b: nat, m: nat)
    requires a <= b
    ensures a * m <= b * m
  {
    assert (b - a) * m >= 0;
  }

  lemma ModUnique(a: int, q: int, n: int, r: int)
    requires n > 0 && 0 <= r < n && a == q * n + r
    ensures a % n == r && a / n == q
  {
    var d := q - a / n;
    assert a == (a / n) * n + a % n;
    assert n * d == a % n - r by {
      assert n * d == n * q - n * (a / n);
    }
    assert n * (-d) == -(n * d);
    if d >= 1 { MulAtLeast(n, d); }
    if d <= -1 { MulAtLeast(n, -d); }
  }

  lemma ModPlusMultiple(a: int, k: int, n: int)
    requires n > 0
    ensures (a + k * n) % n == a % n
  {
    ModUnique(a + k * n, a / n + k, n, a % n) by {
      assert (a / n + k) * n == (a / n) * n + k * n;
    }
  }

  lemma ModMultiple(k: int, n: int)
    requires n > 0
    ensures (k * n) % n == 0
  {
    ModUnique(k * n, k, n, 0);
  }

  /** Congruence by a witness. */
  lemma Congruent(a: int, b: int, n: int, k: int)
    requires n > 0 && a - b == k * n
    ensures a % n == b % n
  {
    ModPlusMultiple(b, k, n);
  }

  lemma CongruentWitness(a: int, b: int, n: int) returns (k: int)
    requires n > 0 && a % n == b % n
    ensures a - b == k * n
  {
    k := a / n - b / n;
    assert a == (a / n) * n + a % n;
    assert b == (b / n) * n + b % n;
    assert k * n == (a / n) * n - (b / n) * n;
  }

  lemma ModMul(a: int, b: int, c: int, d: int, n: int)
    requires n > 0 && a % n == c % n && b % n == d % n
    ensures (a * b) % n == (c * d) % n
  {
    var k := CongruentWitness(a, c, n);
    var l := CongruentWitness(b, d, n);
    assert a * b - c * d == (k * b + c * l) * n by {
      calc {
        a * b - c * d;
        (a - c) * b + c * (b - d);
        (k * n) * b + c * (l * n);
        (k * b + c * l) * n;
      }
    }
    Congruent(a * b, c * d, n, k * b + c * l);
  }

  lemma ModAdd(a: int, b: int, c: int, d: int, n: int)
    requires n > 0 && a % n == c % n && b % n == d % n
    ensures (a + b) % n == (c + d) % n
  {
    var k := CongruentWitness(a, c, n);
    var l := CongruentWitness(b, d, n);
    assert (a + b) - (c + d) == (k + l) * n;
    Congruent(a + b, c + d, n, k + l);
  }

  lemma ModMod(a: int, n: int)
    requires n > 0
    ensures (a % n) % n == a % n
  {
  }

  lemma Assoc(a: int, b: int, c: int)
    ensures a * (b * c) == (a * b) * c
  {
  }

  /** A divisor of two numbers divides their combinations. */
  lemma DividesCombination(a: int, b: int, m: int, q: int, g: int)
    requires g > 0 && a == q * b + m && b % g == 0 && m % g == 0
    ensures a % g == 0
  {
    ModMul(q, b, q, 0, g);
    ModAdd(q * b, m, 0, 0, g);
  }

  // ----- powers

  function Pow(b: nat, e: nat): nat {
    if e == 0 then 1 else b * Pow(b, e - 1)
  }

  lemma {:induction false} PowAdd(b: nat, x: nat, y: nat)
    ensures Pow(b, x + y) == Pow(b, x) * Pow(b, y)
    decreases x
  {
    if x > 0 {
      PowAdd(b, x - 1, y);
      Assoc(b, Pow(b, x - 1), Pow(b, y));
    }
  }

  lemma {:induction false} PowMul(b: nat, x: nat, y: nat)
    ensures Pow(b, x * y) == Pow(Pow(b, x), y)
    decreases y
  {
    if y > 0 {
      PowMul(b, x, y - 1);
      assert x * y == x + x * (y - 1);
      PowAdd(b, x, x * (y - 1));
    }
  }

  lemma {:induction false} PowMod(a: nat, b: nat, e: nat, n: int)
    requires n > 0 && a % n == b % n
    ensures Pow(a, e) % n == Pow(b, e) % n
    decreases e
  {
    if e > 0 {
      PowMod(a, b, e - 1, n);
      ModMul(a, Pow(a, e - 1), b, Pow(b, e - 1), n);
    }
  }

  lemma {:induction false} PowOne(e: nat)
    ensures Pow(1, e) == 1
  {
    if e > 0 { PowOne(e - 1); }
  }

  // ----- primes and inverses

  ghost predicate IsPrime(p: int) {
    p >= 2 && forall d :: 1 < d < p ==> p % d != 0
  }

  datatype Bezout = Bezout(x: int, y: int, g: int)

  /** The extended Euclidean algorithm. */
  function ExtendedGcd(a: nat, b: nat): (r: Bezout)
    decreases b
  {
    if b == 0 then Bezout(1, 0, a)
    else
      var r := ExtendedGcd(b, a % b);
      Bezout(r.y, r.x - (a / b) * r.y, r.g)
  }

  lemma BezoutStep(a: int, b: int, m: int, q: int, x: int, y: int, g: int)
    requires a == q * b + m && b * x + m * y == g
    ensures a * y + b * (x - q * y) == g
  {
    assert a * y == (q * b) * y + m * y;
    assert b * (x - q * y) == b * x - b * (q * y);
    assert (q * b) * y == b * (q * y);
  }

  ghost predicate IsBezout(a: nat, b: nat, r: Bezout) {
    a * r.x + b * r.y == r.g && r.g > 0 && a % r.g == 0 && b % r.g == 0
  }

  lemma BezoutLifts(a: nat, b: nat, q: nat, m: nat, r: Bezout)
    requires a == q * b + m && IsBezout(b, m, r)
    ensures IsBezout(a, b, Bezout(r.y, r.x - q * r.y, r.g))
  {
    BezoutStep(a, b, m, q, r.x, r.y, r.g);
    DividesCombination(a, b, m, q, r.g);
  }

  lemma DivMod(a: nat, b: nat)
    requires b > 0
    ensures a == (a / b) * b + a % b
  {
  }

  lemma BezoutOne(a: nat)
    requires a > 0
    ensures IsBezout(a, 0, Bezout(1, 0, a))
  {
    ModMultiple(1, a);
  }

  lemma BezoutUp(a: nat, b: nat, r: Bezout, s: Bezout)
    requires b > 0 && IsBezout(b, a % b, r) && s == Bezout(r.y, r.x - (a / b) * r.y, r.g)
    ensures IsBezout(a, b, s)
  {
    DivMod(a, b);
    BezoutLifts(a, b, a / b, a % b, r);
  }

  lemma {:induction false} BezoutIdentity(a: nat, b: nat)
    requires a > 0 || b > 0
    ensures IsBezout(a, b, ExtendedGcd(a, b))
    decreases b
  {
    if b > 0 {
      BezoutIdentity(b, a % b);
      BezoutUp(a, b, ExtendedGcd(b, a % b), ExtendedGcd(a, b));
    } else {
      BezoutOne(a);
    }
  }

  /** A prime has no common factor with a number it does not divide. */
  lemma PrimeCoprime(p: nat, a: nat)
    requires IsPrime(p) && a % p != 0
    ensures ExtendedGcd(a, p).g == 1
  {
    BezoutIdentity(a, p);
    DivisorAtMost(p, ExtendedGcd(a, p).g);
  }

  lemma DivisorAtMost(p: int, g: int)
    requires p > 0 && g > 0 && p % g == 0
    ensures g <= p
  {
  }

  /** The inverse of `a` modulo `n`, as the big-integer library computes it. */
  function ModInverse(a: nat, n: nat): nat
    requires n > 0
  {
    ExtendedGcd(a, n).x % n
  }

  lemma InverseWorks(a: nat, n: nat)
    requires n > 1 && ExtendedGcd(a, n).g == 1
    ensures (a * ModInverse(a, n)) % n == 1
  {
    BezoutIdentity(a, n);
    BezoutInverse(a, n, ExtendedGcd(a, n));
    ReduceFactor(a, ExtendedGcd(a, n).x, n);
  }

  lemma BezoutInverse(a: nat, n: nat, r: Bezout)
    requires n > 1 && IsBezout(a, n, r) && r.g == 1
    ensures (a * r.x) % n == 1
  {
    var k := -r.y;
    assert n * r.y == -(k * n);
    Congruent(a * r.x, 1, n, k);
  }

  lemma ReduceFactor(a: int, x: int, n: int)
    requires n > 0
    ensures (a * (x % n)) % n == (a * x) % n
  {
    ModMul(a, x % n, a, x, n);
  }

  /** A prime that divides a product divides a factor. */
  lemma EuclidsLemma(p: nat, a: nat, b: nat)
    requires IsPrime(p) && (a * b) % p == 0 && a % p != 0
    ensures b % p == 0
  {
    PrimeCoprime(p, a);
    InverseWorks(a, p);
    CancelByInverse(p, a, b, ModInverse(a, p));
  }

  lemma CancelByInverse(p: nat, a: nat, b: nat, u: nat)
    requires p > 1 && (a * b) % p == 0 && (a * u) % p == 1
    ensures b % p == 0
  {
    ModMul(a * b, u, 0, u, p);
    ModMul(a * u, b, 1, b, p);
    SwapFactors(a, b, u);
  }

  lemma SwapFactors(a: int, b: int, u: int)
    ensures (a * b) * u == (a * u) * b
  {
  }

  // ----- Fermat's little theorem

  ghost function Choose(n: nat, k: nat): nat {
    if k == 0 then 1 else if n == 0 then 0 else Choose(n - 1, k) + Choose(n - 1, k - 1)
  }

  lemma {:induction false} ChooseAbove(n: nat, k: nat)
    requires k > n
    ensures Choose(n, k) == 0
  {
    if n > 0 {
      ChooseAbove(n - 1, k);
      ChooseAbove(n - 1, k - 1);
    }
  }

  lemma {:induction false} ChooseSelf(n: nat)
    ensures Choose(n, n) == 1
  {
    if n > 0 {
      ChooseSelf(n - 1);
      ChooseAbove(n - 1, n);
    }
  }

  lemma AbsorbStep(k: int, n: int, c1: int, c2: int, d1: int, d2: int)
    requires k * c1 == (n - 1) * d1 && (k - 1) * c2 == (n - 1) * d2 && c2 == d1 + d2
    ensures k * (c1 + c2) == n * c2
  {
    assert k * (c1 + c2) == k * c1 + (k - 1) * c2 + c2;
    assert (n - 1) * d1 + (n - 1) * d2 == (n - 1) * (d1 + d2);
  }

  lemma {:induction false} Absorption(n: nat, k: nat)
    requires n >= 1 && k >= 1
    ensures k * Choose(n, k) == n * Choose(n - 1, k - 1)
    decreases n
  {
    if n == 1 {
      if k > 1 {
        ChooseAbove(1, k);
        ChooseAbove(0, k - 1);
      } else {
        assert Choose(1, 1) == Choose(0, 1) + Choose(0, 0);
      }
    } else if k == 1 {
      Absorption(n - 1, 1);
      assert Choose(n, 1) == Choose(n - 1, 1) + 1;
    } else {
      Absorption(n - 1, k);
      Absorption(n - 1, k - 1);
      AbsorbStep(k, n, Choose(n - 1, k), Choose(n - 1, k - 1), Choose(n - 2, k - 1), Choose(n - 2, k - 2));
    }
  }

  lemma DividesByAbsorption(p: nat, k: nat, c: nat, d: nat)
    requires IsPrime(p) && 0 < k < p && k * c == p * d
    ensures c % p == 0
  {
    assert (k * c) % p == 0 by {
      assert p * d == d * p;
      ModMultiple(d, p);
    }
    assert k % p != 0;
    EuclidsLemma(p, k, c);
  }

  /** A prime divides its inner binomial coefficients. */
  lemma PrimeDividesChoose(p: nat, k: nat)
    requires IsPrime(p) && 0 < k < p
    ensures Choose(p, k) % p == 0
  {
    Absorption(p, k);
    DividesByAbsorption(p, k, Choose(p, k), Choose(p - 1, k - 1));
  }

  /** The first terms of the binomial expansion of (a + 1)^n, up to a^k. */
  ghost function BinomialSum(a: nat, n: nat, k: nat): nat {
    Choose(n, k) * Pow(a, k) + if k == 0 then 0 else BinomialSum(a, n, k - 1)
  }

  lemma TermSplits(c1: int, c2: int, a: int, w: int, s1: int, s2: int)
    ensures (c1 + c2) * (a * w) + (s1 + a * s2) == (c1 * (a * w) + s1) + a * (c2 * w + s2)
  {
    assert (c1 + c2) * (a * w) == c1 * (a * w) + c2 * (a * w);
    assert c2 * (a * w) == a * (c2 * w);
    assert a * (c2 * w + s2) == a * (c2 * w) + a * s2;
  }

  lemma {:induction false} SumSplits(a: nat, n: nat, k: nat)
    requires k >= 1
    ensures BinomialSum(a, n + 1, k) == BinomialSum(a, n, k) + a * BinomialSum(a, n, k - 1)
    decreases k
  {
    var c1, c2 := Choose(n, k), Choose(n, k - 1);
    if k == 1 {
      assert Pow(a, 1) == a * Pow(a, 0);
      TermSplits(c1, c2, a, Pow(a, 0), BinomialSum(a, n, 0), 0);
      assert BinomialSum(a, n + 1, 0) == 1 == BinomialSum(a, n, 0);
    } else {
      SumSplits(a, n, k - 1);
      TermSplits(c1, c2, a, Pow(a, k - 1), BinomialSum(a, n, k - 1), BinomialSum(a, n, k - 2));
    }
  }

  lemma Gather(a: int, s: int)
    ensures s + a * s == (a + 1) * s
  {
  }

  lemma {:induction false} BinomialTheorem(a: nat, n: nat)
    ensures BinomialSum(a, n, n) == Pow(a + 1, n)
  {
    if n == 0 {
      assert Choose(0, 0) * Pow(a, 0) == 1;
    } else {
      BinomialTheorem(a, n - 1);
      SumSplits(a, n - 1, n);
      TopTerm(a, n - 1);
      Gather(a, BinomialSum(a, n - 1, n - 1));
    }
  }

  lemma TopTerm(a: nat, n: nat)
    ensures BinomialSum(a, n, n + 1) == BinomialSum(a, n, n)
  {
    ChooseAbove(n, n + 1);
    assert 0 * Pow(a, n + 1) == 0;
  }

  lemma TermVanishes(c: int, w: int, s: int, p: int)
    requires p > 1 && c % p == 0 && s % p == 1
    ensures (c * w + s) % p == 1
  {
    ModMul(c, w, 0, w, p);
    ModAdd(c * w, s, 0, 1, p);
  }

  /** Modulo a prime only the constant term of the lower part survives. */
  lemma {:induction false} LowerSumMod(a: nat, p: nat, k: nat)
    requires IsPrime(p) && k < p
    ensures BinomialSum(a, p, k) % p == 1
    decreases k
  {
    if k == 0 {
      assert BinomialSum(a, p, 0) == 1;
    } else {
      LowerSumMod(a, p, k - 1);
      PrimeDividesChoose(p, k);
      TermVanishes(Choose(p, k), Pow(a, k), BinomialSum(a, p, k - 1), p);
    }
  }

  lemma PowerSum(b: nat, p: nat)
    requires p > 0
    ensures Pow(b + 1, p) == Pow(b, p) + BinomialSum(b, p, p - 1)
  {
    BinomialTheorem(b, p);
    ChooseSelf(p);
    assert 1 * Pow(b, p) == Pow(b, p);
  }

  /** Raising the base by one raises the p-th power by one, modulo p. */
  lemma PowerStep(b: nat, p: nat)
    requires IsPrime(p) && Pow(b, p) % p == b % p
    ensures Pow(b + 1, p) % p == (b + 1) % p
  {
    LowerSumMod(b, p, p - 1);
    PowerSum(b, p);
    AddOne(Pow(b, p), BinomialSum(b, p, p - 1), b, p);
  }

  lemma AddOne(x: nat, s: nat, b: nat, p: int)
    requires p > 1 && x % p == b % p && s % p == 1
    ensures (x + s) % p == (b + 1) % p
  {
    ModAdd(x, s, b, 1, p);
  }

  lemma {:induction false} FermatPower(a: nat, p: nat)
    requires IsPrime(p)
    ensures Pow(a, p) % p == a % p
    decreases a
  {
    if a == 0 {
      assert Pow(0, p) == 0;
    } else {
      FermatPower(a - 1, p);
      PowerStep(a - 1, p);
    }
  }

  /** Fermat: a^(p-1) is 1 modulo a prime that does not divide a. */
  lemma Fermat(a: nat, p: nat)
    requires IsPrime(p) && a % p != 0
    ensures Pow(a, p - 1) % p == 1
  {
    FermatPower(a, p);
    PrimeCoprime(p, a);
    InverseWorks(a, p);
    CancelFactor(a, Pow(a, p - 1), ModInverse(a, p), p);
  }

  lemma CancelFactor(a: nat, w: nat, u: nat, p: nat)
    requires p > 1 && (a * w) % p == a % p && (a * u) % p == 1
    ensures w % p == 1
  {
    ModMul(a * w, u, a, u, p);
    SwapFactors(a, w, u);
    MulByOne(a * u, w, p);
  }

  lemma MulByOne(a: int, w: int, p: int)
    requires p > 1 && a % p == 1
    ensures (a * w) % p == w % p
  {
    ModMul(a, w, 1, w, p);
  }

  lemma FullTurns(x: nat, p: nat, q: nat)
    requires IsPrime(p) && x % p != 0
    ensures Pow(x, (p - 1) * q) % p == 1
  {
    PowMul(x, p - 1, q);
    Fermat(x, p);
    OnePower(Pow(x, p - 1), q, p);
  }

  lemma OnePower(w: nat, q: nat, p: nat)
    requires p > 1 && w % p == 1
    ensures Pow(w, q) % p == 1
  {
    PowMod(w, 1, q, p);
    PowOne(q);
  }

  /** Exponents only matter modulo p - 1, as long as neither is zero. */
  lemma ExponentReduces(x: nat, e: nat, p: nat)
    requires IsPrime(p) && e % (p - 1) != 0
    ensures Pow(x, e) % p == Pow(x, e % (p - 1)) % p
  {
    var r, q := e % (p - 1), e / (p - 1);
    if x % p == 0 {
      assert e != 0;
      ZeroPower(x, e, p);
      ZeroPower(x, r, p);
    } else {
      assert e == (p - 1) * q + r by { DivMod(e, p - 1); }
      SplitPower(x, (p - 1) * q, r, p) by { FullTurns(x, p, q); }
    }
  }

  lemma SplitPower(x: nat, t: nat, r: nat, p: nat)
    requires p > 1 && Pow(x, t) % p == 1
    ensures Pow(x, t + r) % p == Pow(x, r) % p
  {
    PowAdd(x, t, r);
    MulByOne(Pow(x, t), Pow(x, r), p);
  }

  lemma ZeroPower(x: nat, e: nat, p: nat)
    requires p > 1 && x % p == 0 && e > 0
    ensures Pow(x, e) % p == 0
  {
    ModMul(x, Pow(x, e - 1), 0, Pow(x, e - 1), p);
  }

  // ----- powers of two and odd numbers

  lemma {:induction false} OddDividesPow2(d: nat, q: nat, m: nat)
    requires d % 2 == 1 && d * q == Pow(2, m)
    ensures d == 1
    decreases m
  {
    if m == 0 {
      assert d <= 1 by { if d > 1 && q >= 1 { MulAtLeast(d, q); } }
    } else {
      assert q % 2 == 0 by {
        if q % 2 == 1 { OddTimesOdd(d, q); }
      }
      var h := q / 2;
      assert d * q == 2 * (d * h);
      OddDividesPow2(d, h, m - 1);
    }
  }

  lemma OddTimesOdd(d: nat, q: nat)
    requires d % 2 == 1 && q % 2 == 1
    ensures (d * q) % 2 == 1
  {
    ModMul(d, q, 1, 1, 2);
  }

  // ----- the Chinese remainder theorem

  lemma CoprimeDivides(p: nat, q: nat, d: nat)
    requires IsPrime(p) && IsPrime(q) && p != q && d % p == 0 && d % q == 0
    ensures d % (p * q) == 0
  {
    var k := d / p;
    assert d == p * k;
    if p % q == 0 { DivisorAtMost(p, q); }
    EuclidsLemma(q, p, k);
    var l := k / q;
    assert k == l * q;
    MultipleOfBoth(p, q, l, d);
  }

  lemma MultipleOfBoth(p: nat, q: nat, l: nat, d: nat)
    requires p > 0 && q > 0 && d == p * (l * q)
    ensures d % (p * q) == 0
  {
    assert p * (l * q) == l * (p * q);
    MulAtLeast(p, q);
    ModMultiple(l, p * q);
  }

  lemma DifferenceDivides(a: nat, b: nat, n: nat)
    requires n > 0 && a >= b && a % n == b % n
    ensures (a - b) % n == 0
  {
    var k := CongruentWitness(a, b, n);
    ModMultiple(k, n);
  }

  /** Residues modulo two primes determine a number below their product. */
  lemma ResiduesUnique(p: nat, q: nat, a: nat, b: nat)
    requires IsPrime(p) && IsPrime(q) && p != q
    requires a < p * q && b < p * q && a % p == b % p && a % q == b % q
    ensures a == b
  {
    var hi, lo := if a >= b then a else b, if a >= b then b else a;
    DifferenceDivides(hi, lo, p);
    DifferenceDivides(hi, lo, q);
    CoprimeDivides(p, q, hi - lo);
    SmallMultiple(hi - lo, p * q);
  }

  lemma SmallMultiple(d: nat, n: nat)
    requires d < n && d % n == 0
    ensures d == 0
  {
  }
}
