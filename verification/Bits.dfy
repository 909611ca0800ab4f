/** Bitwise and, and what the source uses it for: recognizing powers of two and reducing an index
    to the length of a table (go/journal/chain_guard.go:20-34, go/journal/explorer.go:1521-1579). */
module Bits {
  import opened NumberTheory

  function BitAnd(a: nat, b: nat): nat {
    if a == 0 || b == 0 then 0 else (a % 2) * (b % 2) + 2 * BitAnd(a / 2, b / 2)
  }

  ghost function Pow2(k: nat): (p: nat)
    ensures p >= 1
  {
    if k == 0 then 1 else 2 * Pow2(k - 1)
  }

  ghost predicate IsPow2(n: nat) { exists k: nat :: n == Pow2(k) }

  lemma {:induction false} BitAndSelf(a: nat)
    ensures BitAnd(a, a) == a
  {
    if a > 0 {
      BitAndSelf(a / 2);
      OwnBits(a, a / 2);
    }
  }

  lemma OwnBits(a: nat, half: nat)
    requires a > 0 && half == a / 2 && BitAnd(half, half) == half
    ensures BitAnd(a, a) == a
  {
    assert a % 2 == 0 || a % 2 == 1;
    assert (a % 2) * (a % 2) == a % 2;
  }

  /** Clearing the lowest set bit leaves nothing exactly for the powers of two. */
  lemma {:induction false} PowerOfTwoTest(n: nat)
    requires n >= 1
    ensures BitAnd(n, n - 1) == 0 <==> IsPow2(n)
  {
    if n == 1 {
      assert n == Pow2(0);
    } else if n % 2 == 1 {
      BitAndSelf(n / 2);
      assert (n - 1) / 2 == n / 2;
      forall k: nat ensures n != Pow2(k) {
        assert k > 0 ==> Pow2(k) % 2 == 0;
      }
    } else {
      PowerOfTwoTest(n / 2);
      assert (n - 1) / 2 == n / 2 - 1;
      if IsPow2(n / 2) {
        var k: nat :| n / 2 == Pow2(k);
        assert n == Pow2(k + 1);
      }
      if IsPow2(n) {
        var k: nat :| n == Pow2(k);
        assert n / 2 == Pow2(k - 1);
      }
    }
  }

  /** Masking with one less than a power of two takes the remainder. */
  lemma {:induction false} MaskIsMod(x: nat, k: nat)
    ensures BitAnd(x, Pow2(k) - 1) == x % Pow2(k)
  {
    if k == 0 {
      NoRemainder(x);
    } else if x == 0 {
      ZeroRemains(Pow2(k));
    } else {
      MaskIsMod(x / 2, k - 1);
      MaskStep(x, Pow2(k - 1));
    }
  }

  lemma NoRemainder(x: nat)
    ensures x % 1 == 0 && BitAnd(x, 0) == 0
  {
  }

  lemma ZeroRemains(m: nat)
    requires m > 0
    ensures 0 % m == 0 && BitAnd(0, m - 1) == 0
  {
  }

  lemma MaskStep(x: nat, m: nat)
    requires x > 0 && m > 0 && BitAnd(x / 2, m - 1) == (x / 2) % m
    ensures BitAnd(x, 2 * m - 1) == x % (2 * m)
  {
    HalfMod(x, m);
    LowBits(x, m, BitAnd(x / 2, m - 1));
  }

  lemma LowBits(x: nat, m: nat, rest: nat)
    requires x > 0 && m > 0 && rest == BitAnd(x / 2, m - 1)
    ensures BitAnd(x, 2 * m - 1) == x % 2 + 2 * rest
  {
    var n := 2 * m - 1;
    assert n / 2 == m - 1 && n % 2 == 1;
  }

  /** The lowest bit and the remainder of the rest make up the remainder. */
  lemma HalfMod(x: nat, m: nat)
    requires m > 0
    ensures x % (2 * m) == x % 2 + 2 * ((x / 2) % m)
  {
    var q, r := (x / 2) / m, (x / 2) % m;
    DivMod(x / 2, m);
    Twice(q, m);
    ModUnique(x, q, 2 * m, x % 2 + 2 * r);
  }

  lemma Twice(q: nat, m: nat)
    ensures 2 * (q * m) == q * (2 * m)
  {
  }

  lemma Doubled(n: nat)
    requires IsPow2(n)
    ensures IsPow2(2 * n)
  {
    var k: nat :| n == Pow2(k);
    assert 2 * n == Pow2(k + 1);
  }

  lemma Pow2Of8()
    ensures IsPow2(256)
  {
    assert Pow2(4) == 16;
    assert Pow2(8) == 256;
  }
}
