/** Key generation of the forward-secure generator (go/journal/fss.go:169-199, 220-251): the bits it
    fixes in the random bytes make every key usable, so that drawing the first square never fails. */
module KeyGeneration {
  import opened JournalGraph
  import opened NumberTheory
  import opened Fsprg

  /** The byte with its two highest bits set. */
  function SetTopBits(b: uint8): uint8 { b % 64 + 192 }

  /** The byte with its two lowest bits set. */
  function SetLowBits(b: uint8): uint8 { b - b % 4 + 3 }

  function ClearTopBit(b: uint8): uint8 { b % 128 }

  /** Fixing bits changes no other bit. */
  lemma OtherBitsStay(b: uint8)
    ensures SetTopBits(b) / 64 == 3 && SetTopBits(b) % 64 == b % 64
    ensures SetLowBits(b) % 4 == 3 && SetLowBits(b) / 4 == b / 4
    ensures ClearTopBit(b) / 128 == 0 && ClearTopBit(b) % 128 == b % 128
  {
  }

  function FixBits(random: bytes): (b: bytes)
    requires random != []
    ensures |b| == |random| && b[0] >= 192 && b[|b|-1] % 4 == 3
  {
    var topped := random[0 := SetTopBits(random[0])];
    topped[|random|-1 := SetLowBits(topped[|random|-1])]
  }

  /** Where the search for a prime begins. */
  function Candidate(random: bytes): nat
    requires random != []
  {
    Import(FixBits(random))
  }

  function CutTop(random: bytes): (b: bytes)
    requires random != []
    ensures |b| == |random| && b[0] < 128
  {
    random[0 := ClearTopBit(random[0])]
  }

  /** What the first square is the square of. */
  function Draw(random: bytes): nat
    requires random != []
  {
    Import(CutTop(random))
  }

  /** A prime reached from the candidate in steps of four. */
  ghost predicate Searched(random: bytes, p: nat)
    requires random != []
  {
    exists k: nat :: p == Candidate(random) + 4 * k && IsPrime(p)
  }

  /** The first byte decides a number up to the rest of the bytes. */
  lemma {:induction false} ImportBounds(b: bytes)
    requires b != []
    ensures b[0] * Pow(256, |b| - 1) <= Import(b) < (b[0] + 1) * Pow(256, |b| - 1)
    decreases |b|
  {
    var n := |b| - 1;
    if n == 0 {
      assert b[..0] == [];
      assert Import(b[..0]) == 0;
    } else {
      ImportBounds(b[..n]);
      var w := Pow(256, n - 1);
      assert Pow(256, n) == 256 * w;
      OneMoreByte(b[0], w, Import(b[..n]), b[n]);
    }
  }

  lemma OneMoreByte(first: nat, w: nat, x: nat, last: uint8)
    requires first * w <= x < (first + 1) * w
    ensures first * (256 * w) <= x * 256 + last < (first + 1) * (256 * w)
  {
    assert first * (256 * w) == 256 * (first * w);
    assert (first + 1) * (256 * w) == 256 * ((first + 1) * w);
  }

  lemma ImportLow(b: bytes)
    requires b != []
    ensures Import(b) % 4 == b[|b|-1] % 4
  {
  }

  /** A number with high first byte is 3 modulo 4 and has its two highest bits set. */
  lemma HighAndOdd(b: bytes)
    requires b != [] && b[0] >= 192 && b[|b|-1] % 4 == 3
    ensures Import(b) % 4 == 3 && Import(b) >= 192 * Pow(256, |b| - 1)
  {
    ImportBounds(b);
    MulMonotone(192, b[0], Pow(256, |b| - 1));
    ImportLow(b);
  }

  lemma StepsOfFour(first: nat, k: nat, w: nat)
    requires first % 4 == 3 && first >= 192 * w && w >= 1
    ensures (first + 4 * k) % 4 == 3 && first + 4 * k >= 192 * w && first + 4 * k > 3
  {
  }

  lemma SteppedTo(first: nat, p: nat, w: nat)
    requires first % 4 == 3 && first >= 192 * w && w >= 1
    requires exists k: nat :: p == first + 4 * k && IsPrime(p)
    ensures BlumPrime(p) && p >= 192 * w
  {
    var k: nat :| p == first + 4 * k && IsPrime(p);
    StepsOfFour(first, k, w);
  }

  lemma SearchedPrime(random: bytes, p: nat)
    requires random != [] && Searched(random, p)
    ensures BlumPrime(p) && p >= 192 * Pow(256, |random| - 1)
  {
    HighAndOdd(FixBits(random));
    PowPositive(|random| - 1);
    SteppedTo(Candidate(random), p, Pow(256, |random| - 1));
  }

  lemma {:induction false} PowPositive(n: nat)
    ensures Pow(256, n) >= 1
  {
    if n > 0 { PowPositive(n - 1); }
  }

  lemma LowFirst(b: bytes, n: nat)
    requires b != [] && b[0] < 128 && n == |b| - 1
    ensures Import(b) < 128 * Pow(256, n)
  {
    ImportBounds(b);
    MulMonotone(b[0] + 1, 128, Pow(256, n));
  }

  lemma DrawBelow(random: bytes, n: nat)
    requires random != [] && n == |random| - 1
    ensures Draw(random) < 128 * Pow(256, n)
  {
    var b := CutTop(random);
    LowFirst(b, n);
  }

  /** (3/4)^2 of the range is more than half of it. */
  lemma ProductAbove(p: nat, q: nat, w: nat)
    requires p >= 192 * w && q >= 192 * w && w > 0
    ensures p * q > 128 * (256 * (w * w))
  {
    MulMonotone(192 * w, p, q);
    MulMonotone(192 * w, q, 192 * w);
    assert (192 * w) * (192 * w) == 36864 * (w * w);
    assert w * w > 0;
  }

  /** Whatever the random bytes, two different primes found from them and the square drawn from
      them make a key pair with which every epoch can be sought. */
  lemma GeneratedKeys(secpar: nat, a: bytes, b: bytes, c: bytes, p: nat, q: nat)
    requires IsValidSecpar(secpar) && |a| == |b| == secpar / 16 && |c| == secpar / 8
    requires Searched(a, p) && Searched(b, q) && p != q
    requires p < Pow(256, secpar / 16) && q < Pow(256, secpar / 16)
    ensures Draw(c) < p * q
    ensures Keys(secpar, p, q, Draw(c), State(secpar, p * q, GenSquare(p * q, Draw(c)), 0), MasterSecret(secpar, p, q))
  {
    var n := secpar / 16;
    SearchedPrime(a, p);
    SearchedPrime(b, q);
    DrawBelow(c, |c| - 1);
    PowPositive(n - 1);
    PowAdd(256, n - 1, n - 1);
    ProductAbove(p, q, Pow(256, n - 1));
    assert |c| - 1 == (n - 1) + (n - 1) + 1;
    assert Pow(256, |c| - 1) == 256 * Pow(256, (n - 1) + (n - 1));
  }
}
