/** The forward-secure generator behind sealed journals (go/journal/fss.go): a state is
    squared once per epoch, and the holder of the two primes can jump to any epoch. */
module Fsprg {
  import opened NumberTheory
  import opened JournalGraph

  // ----- big-endian numbers

  function Import(b: bytes): nat {
    if b == [] then 0 else Import(b[..|b|-1]) * 256 + b[|b|-1]
  }

  function Export(x: nat, length: nat): (b: bytes)
    ensures |b| == length
  {
    if length == 0 then [] else Export(x / 256, length - 1) + [x % 256]
  }

  lemma {:induction false} ImportExport(x: nat, length: nat)
    requires x < Pow(256, length)
    ensures Import(Export(x, length)) == x
    decreases length
  {
    if length > 0 {
      var b := Export(x, length);
      assert b[..length-1] == Export(x / 256, length - 1);
      ImportExport(x / 256, length - 1);
    }
  }

  // ----- keys and states

  predicate IsValidSecpar(secpar: nat) {
    secpar % 16 == 0 && 16 <= secpar <= 16384
  }

  function StoreSecpar(secpar: nat): bytes
    requires IsValidSecpar(secpar)
  {
    Export(secpar / 16 - 1, 2)
  }

  function ReadSecpar(b: bytes): nat
    requires |b| >= 2
  {
    16 * (Import(b[..2]) + 1)
  }

  /** A state: the security parameter, the modulus, the current square and the epoch. */
  function State(secpar: nat, n: nat, x: nat, epoch: nat): bytes
    requires IsValidSecpar(secpar)
  {
    StoreSecpar(secpar) + Export(n, secpar / 8) + Export(x, secpar / 8) + Export(epoch, 8)
  }

  function MasterSecret(secpar: nat, p: nat, q: nat): bytes
    requires IsValidSecpar(secpar)
  {
    StoreSecpar(secpar) + Export(p, secpar / 16) + Export(q, secpar / 16)
  }

  predicate WellSized(state: bytes) {
    |state| >= 2 && |state| == 2 + 2 * (ReadSecpar(state) / 8) + 8
  }

  function Modulus(state: bytes): nat
    requires WellSized(state)
  {
    Import(state[2..2 + ReadSecpar(state) / 8])
  }

  function Square(state: bytes): nat
    requires WellSized(state)
  {
    Import(state[2 + ReadSecpar(state) / 8..2 + 2 * (ReadSecpar(state) / 8)])
  }

  function Epoch(state: bytes): nat
    requires WellSized(state)
  {
    Import(state[2 + 2 * (ReadSecpar(state) / 8)..])
  }

  function SquareMod(x: nat, n: nat): nat
    requires n > 0
  {
    (x * x) % n
  }

  /** The epoch counter is a 64-bit word that wraps around. */
  function NextEpochWord(epoch: nat): nat {
    if epoch == MAX_U64 then 0 else epoch + 1
  }

  /** The next epoch's state. */
  function Evolve(state: bytes): bytes
    requires WellSized(state) && Modulus(state) > 0
  {
    var w := ReadSecpar(state) / 8;
    var x := SquareMod(Square(state), Modulus(state));
    state[..2 + w] + Export(x, w) + Export(NextEpochWord(Epoch(state)), 8)
  }

  /** A square drawn from the seed, as the first state holds it. */
  function GenSquare(n: nat, draw: nat): nat
    requires draw < n
  {
    SquareMod(draw, n)
  }

  function TwoPowModPhi(m: nat, p: nat): nat
    requires p > 1
  {
    Pow(2, m) % (p - 1)
  }

  function CrtCompose(xp: nat, xq: nat, p: nat, q: nat): nat
    requires p > 0 && q > 0
  {
    var a := (xq - xp) % q;
    var u := ModInverse(p, q);
    var b := (a * u) % q;
    assert p * q > 0 by { MulAtLeast(p, q); }
    (p * b + xp) % (p * q)
  }

  /** The square at an epoch, computed from the two primes. */
  function SeekSquare(x: nat, epoch: nat, p: nat, q: nat): nat
    requires p > 1 && q > 1
  {
    var kp, kq := TwoPowModPhi(epoch, p), TwoPowModPhi(epoch, q);
    CrtCompose(Pow(x % p, kp) % p, Pow(x % q, kq) % q, p, q)
  }

  predicate WellSizedSecret(msk: bytes) {
    |msk| >= 2 && |msk| == 2 + 2 * (ReadSecpar(msk) / 16)
  }

  function FirstPrime(msk: bytes): nat
    requires WellSizedSecret(msk)
  {
    Import(msk[2..2 + ReadSecpar(msk) / 16])
  }

  function SecondPrime(msk: bytes): nat
    requires WellSizedSecret(msk)
  {
    Import(msk[2 + ReadSecpar(msk) / 16..])
  }

  /** The state of any epoch, from the epoch-0 state, the master secret and the seed's draw. */
  function Seek(state: bytes, epoch: nat, msk: bytes, draw: nat): bytes
    requires WellSizedSecret(msk) && FirstPrime(msk) > 1 && SecondPrime(msk) > 1
    requires WellSized(state) && ReadSecpar(state) == ReadSecpar(msk) && draw < FirstPrime(msk) * SecondPrime(msk)
  {
    var w, p, q := ReadSecpar(msk) / 8, FirstPrime(msk), SecondPrime(msk);
    var xm := SeekSquare(GenSquare(p * q, draw), epoch, p, q);
    state[..2 + w] + Export(xm, w) + Export(epoch, 8)
  }

  // ----- the square of an epoch

  /** What evolving `m` times does to the square. */
  ghost function Squares(x: nat, m: nat, n: nat): nat
    requires n > 0
  {
    if m == 0 then x else SquareMod(Squares(x, m - 1, n), n)
  }

  lemma {:induction false} SquaresArePowers(x: nat, m: nat, n: nat)
    requires n > 0 && x < n
    ensures Squares(x, m, n) == Pow(x, Pow(2, m)) % n
    decreases m
  {
    if m == 0 {
      assert Pow(x, 1) == x * Pow(x, 0);
    } else {
      SquaresArePowers(x, m - 1, n);
      SquareDoubles(x, Pow(2, m - 1), n);
      assert Pow(2, m) == Pow(2, m - 1) + Pow(2, m - 1);
    }
  }

  lemma SquareDoubles(x: nat, e: nat, n: nat)
    requires n > 0
    ensures SquareMod(Pow(x, e) % n, n) == Pow(x, e + e) % n
  {
    SquareOfRemainder(Pow(x, e), n);
    PowAdd(x, e, e);
  }

  lemma SquareOfRemainder(w: nat, n: nat)
    requires n > 0
    ensures ((w % n) * (w % n)) % n == (w * w) % n
  {
    ModMul(w % n, w % n, w, w, n);
  }

  /** A prime the generator uses: congruent to 3 modulo 4 and above 3. */
  ghost predicate BlumPrime(p: nat) {
    IsPrime(p) && p % 4 == 3 && p > 3
  }

  /** 2^m is never a multiple of p - 1, so the reduced exponent is never zero. */
  lemma ReducedExponentPositive(m: nat, p: nat)
    requires BlumPrime(p)
    ensures TwoPowModPhi(m, p) != 0
  {
    if Pow(2, m) % (p - 1) == 0 {
      var d, k := (p - 1) / 2, Pow(2, m) / (p - 1);
      assert Pow(2, m) == (p - 1) * k;
      assert p - 1 == 2 * d;
      assert d * (2 * k) == (p - 1) * k;
      OddDividesPow2(d, 2 * k, m);
    }
  }

  lemma ResiduePower(x: nat, m: nat, p: nat)
    requires BlumPrime(p)
    ensures Pow(x % p, TwoPowModPhi(m, p)) % p == Pow(x, Pow(2, m)) % p
  {
    ReducedExponentPositive(m, p);
    ReducedResidue(x, Pow(2, m), p);
  }

  lemma ReducedResidue(x: nat, e: nat, p: nat)
    requires IsPrime(p) && e % (p - 1) != 0
    ensures Pow(x % p, e % (p - 1)) % p == Pow(x, e) % p
  {
    ExponentReduces(x, e, p);
    ModMod(x, p);
    PowMod(x % p, x, e % (p - 1), p);
  }

  /** The composed number has both residues and lies below the modulus. */
  lemma CrtComposes(xp: nat, xq: nat, p: nat, q: nat)
    requires IsPrime(p) && IsPrime(q) && p != q && xp < p && xq < q
    ensures var r := CrtCompose(xp, xq, p, q); r < p * q && r % p == xp && r % q == xq
  {
    var a := (xq - xp) % q;
    var u := ModInverse(p, q);
    var b := (a * u) % q;
    var s := p * b + xp;
    if p % q == 0 { DivisorAtMost(p, q); }
    PrimeCoprime(q, p);
    InverseWorks(p, q);
    CrtFirst(p, q, b, xp);
    CrtSecond(p, q, a, u, b, xp, xq);
    MulAtLeast(p, q);
    ReduceByFactor(s, p, q);
  }

  lemma CrtFirst(p: nat, q: nat, b: nat, xp: nat)
    requires p > 0 && xp < p
    ensures (p * b + xp) % p == xp
  {
    ModUnique(p * b + xp, b, p, xp);
  }

  lemma CrtSecond(p: nat, q: nat, a: nat, u: nat, b: nat, xp: nat, xq: nat)
    requires q > 1 && xq < q && a == (xq - xp) % q && (p * u) % q == 1 && b == (a * u) % q
    ensures (p * b + xp) % q == xq
  {
    InverseTimes(p, q, a, u, b);
    ModMod(xq - xp, q);
    AddBack(p * b, xq - xp, xp, xq, q);
  }

  lemma AddBack(s: int, d: int, xp: int, xq: int, q: int)
    requires q > 0 && s % q == d % q && d + xp == xq && 0 <= xq < q
    ensures (s + xp) % q == xq
  {
    ModAdd(s, xp, d, xp, q);
  }

  lemma InverseTimes(p: nat, q: nat, a: nat, u: nat, b: nat)
    requires q > 1 && (p * u) % q == 1 && b == (a * u) % q
    ensures (p * b) % q == a % q
  {
    ReduceFactor(p, a * u, q);
    assert p * (a * u) == (p * u) * a by { Assoc(p, u, a); }
    MulByOne(p * u, a, q);
  }

  /** Reducing modulo a product keeps the residues of its factors. */
  lemma ReduceByFactor(s: nat, p: nat, q: nat)
    requires p > 0 && q > 0 && p * q > 0
    ensures (s % (p * q)) % p == s % p && (s % (p * q)) % q == s % q
  {
    var n, k := p * q, s / (p * q);
    DivMod(s, n);
    assert s - s % n == (k * q) * p by { assert k * n == (k * q) * p; }
    assert s - s % n == (k * p) * q by { assert k * n == (k * p) * q; }
    Congruent(s, s % n, p, k * q);
    Congruent(s, s % n, q, k * p);
  }

  /** The jump lands on the square that evolving epoch by epoch reaches. */
  lemma SeekSquareIsIterated(x: nat, m: nat, p: nat, q: nat)
    requires BlumPrime(p) && BlumPrime(q) && p != q && x < p * q
    ensures SeekSquare(x, m, p, q) == Squares(x, m, p * q) < p * q
  {
    var n, e := p * q, Pow(2, m);
    ResiduePower(x, m, p);
    ResiduePower(x, m, q);
    var xp, xq := Pow(x % p, TwoPowModPhi(m, p)) % p, Pow(x % q, TwoPowModPhi(m, q)) % q;
    CrtComposes(xp, xq, p, q);
    SquaresArePowers(x, m, n);
    ReduceByFactor(Pow(x, e), p, q);
    ResiduesUnique(p, q, SeekSquare(x, m, p, q), Pow(x, e) % n);
  }

  // ----- states as bytes

  lemma EpochWidth()
    ensures Pow(256, 8) == MAX_U64 + 1
  {
    assert Pow(256, 2) == 65536;
    PowAdd(256, 2, 2);
    PowAdd(256, 4, 4);
  }

  lemma SecparStored(secpar: nat)
    requires IsValidSecpar(secpar)
    ensures ReadSecpar(StoreSecpar(secpar)) == secpar
  {
    assert Pow(256, 2) == 65536;
    ImportExport(secpar / 16 - 1, 2);
    assert StoreSecpar(secpar)[..2] == StoreSecpar(secpar);
  }

  lemma Slices(a: bytes, b: bytes, c: bytes, d: bytes, s: bytes)
    requires s == a + b + c + d
    ensures |s| == |a| + |b| + |c| + |d| && s[..|a|] == a && s[|a|..|a| + |b|] == b
    ensures s[|a| + |b|..|a| + |b| + |c|] == c && s[|a| + |b| + |c|..] == d && s[..|a| + |b|] == a + b
  {
  }

  /** The pieces of a state that hold the numbers `n`, `x` and `epoch`. */
  ghost predicate Pieces(s: bytes, a: bytes, b: bytes, c: bytes, d: bytes, w: nat) {
    s == a + b + c + d && |a| == 2 && |b| == |c| == w && |d| == 8 && ReadSecpar(a) / 8 == w
  }

  lemma PiecesWidth(s: bytes, a: bytes, b: bytes, c: bytes, d: bytes, w: nat)
    requires Pieces(s, a, b, c, d, w)
    ensures |s| == 2 + w + w + 8 && ReadSecpar(s) == ReadSecpar(a) && WellSized(s)
  {
    assert s[..2] == a[..2];
  }

  lemma PiecesRead(s: bytes, a: bytes, b: bytes, c: bytes, d: bytes, w: nat)
    requires Pieces(s, a, b, c, d, w) && WellSized(s) && ReadSecpar(s) / 8 == w
    ensures Modulus(s) == Import(b) && Square(s) == Import(c) && Epoch(s) == Import(d) && s[..2 + w] == a + b
  {
    Slices(a, b, c, d, s);
  }

  lemma EvolveFields(s: bytes, prefix: bytes, w: nat, n: nat, x: nat, epoch: nat)
    requires WellSized(s) && ReadSecpar(s) / 8 == w && s[..2 + w] == prefix
    requires Modulus(s) == n > 0 && Square(s) == x && Epoch(s) == epoch < MAX_U64
    ensures Evolve(s) == prefix + Export(SquareMod(x, n), w) + Export(epoch + 1, 8)
  {
  }

  lemma EvolvePieces(s: bytes, a: bytes, b: bytes, c: bytes, d: bytes, w: nat, n: nat, x: nat, epoch: nat)
    requires Pieces(s, a, b, c, d, w) && Import(b) == n > 0 && Import(c) == x && Import(d) == epoch < MAX_U64
    ensures WellSized(s) && Modulus(s) == n
    ensures Evolve(s) == a + b + Export(SquareMod(x, n), w) + Export(epoch + 1, 8)
  {
    PiecesWidth(s, a, b, c, d, w);
    PiecesRead(s, a, b, c, d, w);
    EvolveFields(s, a + b, w, n, x, epoch);
  }

  lemma StatePieces(secpar: nat, n: nat, x: nat, epoch: nat)
    requires IsValidSecpar(secpar) && n < Pow(256, secpar / 8) && x < Pow(256, secpar / 8) && epoch <= MAX_U64
    ensures var w := secpar / 8;
            && Pieces(State(secpar, n, x, epoch), StoreSecpar(secpar), Export(n, w), Export(x, w), Export(epoch, 8), w)
            && Import(Export(n, w)) == n && Import(Export(x, w)) == x && Import(Export(epoch, 8)) == epoch
  {
    SecparStored(secpar);
    EpochWidth();
    ImportExport(n, secpar / 8);
    ImportExport(x, secpar / 8);
    ImportExport(epoch, 8);
  }

  /** A state can be read back field by field. */
  lemma StateFields(secpar: nat, n: nat, x: nat, epoch: nat)
    requires IsValidSecpar(secpar) && n < Pow(256, secpar / 8) && x < Pow(256, secpar / 8) && epoch <= MAX_U64
    ensures var s := State(secpar, n, x, epoch);
            && WellSized(s) && ReadSecpar(s) == secpar
            && Modulus(s) == n && Square(s) == x && Epoch(s) == epoch
            && s[..2 + secpar / 8] == StoreSecpar(secpar) + Export(n, secpar / 8)
  {
    var s, w := State(secpar, n, x, epoch), secpar / 8;
    var a, b, c, d := StoreSecpar(secpar), Export(n, w), Export(x, w), Export(epoch, 8);
    StatePieces(secpar, n, x, epoch);
    SecparStored(secpar);
    PiecesWidth(s, a, b, c, d, w);
    PiecesRead(s, a, b, c, d, w);
  }

  /** Evolving a state squares its square and counts its epoch. */
  lemma EvolveState(secpar: nat, n: nat, x: nat, epoch: nat, y: nat, next: nat, s: bytes)
    requires IsValidSecpar(secpar) && 0 < n < Pow(256, secpar / 8) && x < n && epoch < MAX_U64
    requires s == State(secpar, n, x, epoch) && y == SquareMod(x, n) && next == epoch + 1
    ensures WellSized(s) && Modulus(s) == n && Evolve(s) == State(secpar, n, y, next)
  {
    var w := secpar / 8;
    StatePieces(secpar, n, x, epoch);
    EvolvePieces(s, StoreSecpar(secpar), Export(n, w), Export(x, w), Export(epoch, 8), w, n, x, epoch);
  }

  /** `m` applications of Evolve. */
  ghost function EvolveTimes(state: bytes, m: nat): (s: bytes)
    requires WellSized(state) && Modulus(state) > 0
    ensures WellSized(s) && Modulus(s) == Modulus(state)
  {
    if m == 0 then state
    else
      var s := EvolveTimes(state, m - 1);
      EvolveKeepsModulus(s);
      Evolve(s)
  }

  lemma EvolveKeepsModulus(s: bytes)
    requires WellSized(s) && Modulus(s) > 0
    ensures WellSized(Evolve(s)) && Modulus(Evolve(s)) == Modulus(s)
  {
    var w := ReadSecpar(s) / 8;
    assert Evolve(s)[..2 + w] == s[..2 + w];
    assert Evolve(s)[..2] == s[..2 + w][..2] == s[..2];
    assert Evolve(s)[2..2 + w] == s[..2 + w][2..] == s[2..2 + w];
  }

  /** Evolving `m` times from `first` squares `m` times and counts `m` epochs. */
  ghost predicate ReachesEpoch(secpar: nat, n: nat, x: nat, first: bytes, m: nat)
    requires IsValidSecpar(secpar) && n > 0
  {
    WellSized(first) && Modulus(first) == n && EvolveTimes(first, m) == State(secpar, n, Squares(x, m, n), m)
  }

  lemma StartsAtEpoch(secpar: nat, n: nat, x: nat)
    requires IsValidSecpar(secpar) && 0 < n < Pow(256, secpar / 8) && x < n
    ensures ReachesEpoch(secpar, n, x, State(secpar, n, x, 0), 0)
  {
    StateFields(secpar, n, x, 0);
  }

  lemma {:induction false} EvolveTimesState(secpar: nat, n: nat, x: nat, first: bytes, m: nat)
    requires IsValidSecpar(secpar) && 0 < n < Pow(256, secpar / 8) && x < n && m <= MAX_U64
    requires ReachesEpoch(secpar, n, x, first, 0)
    ensures ReachesEpoch(secpar, n, x, first, m)
    decreases m
  {
    if m > 0 {
      var k := m - 1;
      EvolveTimesState(secpar, n, x, first, k);
      NextEpoch(secpar, n, x, first, k, m);
    }
  }

  lemma SquaresBelow(x: nat, m: nat, n: nat)
    requires n > 0 && x < n
    ensures Squares(x, m, n) < n
  {
  }

  lemma NextEpoch(secpar: nat, n: nat, x: nat, first: bytes, k: nat, m: nat)
    requires IsValidSecpar(secpar) && 0 < n < Pow(256, secpar / 8) && x < n && m == k + 1 <= MAX_U64
    requires ReachesEpoch(secpar, n, x, first, k)
    ensures ReachesEpoch(secpar, n, x, first, m)
  {
    var s, y, z := EvolveTimes(first, k), Squares(x, k, n), Squares(x, m, n);
    SquaresBelow(x, k, n);
    EvolveState(secpar, n, y, k, z, m, s);
    OneMoreEpoch(first, s, m);
  }

  lemma OneMoreEpoch(state: bytes, s: bytes, m: nat)
    requires WellSized(state) && Modulus(state) > 0 && m > 0 && s == EvolveTimes(state, m - 1)
    requires WellSized(s) && Modulus(s) > 0
    ensures EvolveTimes(state, m) == Evolve(s)
  {
  }

  /** A master secret holds its two primes. */
  lemma SecretFields(secpar: nat, p: nat, q: nat)
    requires IsValidSecpar(secpar) && p < Pow(256, secpar / 16) && q < Pow(256, secpar / 16)
    ensures var msk := MasterSecret(secpar, p, q);
            && WellSizedSecret(msk) && ReadSecpar(msk) == secpar && FirstPrime(msk) == p && SecondPrime(msk) == q
  {
    SecparStored(secpar);
    ImportExport(p, secpar / 16);
    ImportExport(q, secpar / 16);
    SecretPieces(StoreSecpar(secpar), Export(p, secpar / 16), Export(q, secpar / 16), MasterSecret(secpar, p, q));
  }

  lemma SecretPieces(a: bytes, b: bytes, c: bytes, msk: bytes)
    requires msk == a + b + c && |a| == 2 && |b| == |c| == ReadSecpar(a) / 16
    ensures WellSizedSecret(msk) && ReadSecpar(msk) == ReadSecpar(a)
    ensures FirstPrime(msk) == Import(b) && SecondPrime(msk) == Import(c)
  {
    assert msk[..2] == a[..2];
    assert msk[2..2 + |b|] == b && msk[2 + |b|..] == c;
  }

  lemma ProductFits(secpar: nat, p: nat, q: nat)
    requires IsValidSecpar(secpar) && 0 < p < Pow(256, secpar / 16) && 0 < q < Pow(256, secpar / 16)
    ensures 0 < p * q < Pow(256, secpar / 8)
  {
    PowAdd(256, secpar / 16, secpar / 16);
    MulBelow(p, q, Pow(256, secpar / 16));
  }

  lemma MulBelow(p: nat, q: nat, b: nat)
    requires 0 < p < b && 0 < q < b
    ensures 0 < p * q < b * b
  {
  }

  /** The first state and the master secret that key generation makes from two primes. */
  ghost predicate Keys(secpar: nat, p: nat, q: nat, draw: nat, state0: bytes, msk: bytes) {
    && IsValidSecpar(secpar) && BlumPrime(p) && BlumPrime(q) && p != q && draw < p * q
    && p < Pow(256, secpar / 16) && q < Pow(256, secpar / 16)
    && state0 == State(secpar, p * q, GenSquare(p * q, draw), 0) && msk == MasterSecret(secpar, p, q)
  }

  lemma KeysReadable(secpar: nat, p: nat, q: nat, draw: nat, state0: bytes, msk: bytes)
    requires Keys(secpar, p, q, draw, state0, msk)
    ensures WellSizedSecret(msk) && FirstPrime(msk) == p && SecondPrime(msk) == q && ReadSecpar(msk) == secpar
    ensures WellSized(state0) && ReadSecpar(state0) == secpar && Modulus(state0) == p * q > 0
  {
    ProductFits(secpar, p, q);
    SecretFields(secpar, p, q);
    StateFields(secpar, p * q, GenSquare(p * q, draw), 0);
  }

  /** Seeking to any epoch yields the very bytes that evolving epoch by epoch yields. */
  lemma SeekIsIteratedEvolve(secpar: nat, p: nat, q: nat, draw: nat, state0: bytes, msk: bytes, m: nat)
    requires Keys(secpar, p, q, draw, state0, msk) && m <= MAX_U64
    ensures WellSizedSecret(msk) && FirstPrime(msk) == p && SecondPrime(msk) == q && ReadSecpar(msk) == secpar
    ensures WellSized(state0) && ReadSecpar(state0) == secpar && Modulus(state0) == p * q > 0
    ensures Seek(state0, m, msk, draw) == EvolveTimes(state0, m)
  {
    var n := p * q;
    var x := GenSquare(n, draw);
    KeysReadable(secpar, p, q, draw, state0, msk);
    ProductFits(secpar, p, q);
    StartsAtEpoch(secpar, n, x);
    EvolveTimesState(secpar, n, x, state0, m);
    SeekSquareIsIterated(x, m, p, q);
    StateFields(secpar, n, x, 0);
    SeekBytes(state0, m, msk, draw, p, q, secpar / 8, Squares(x, m, n));
  }

  lemma SeekBytes(state0: bytes, m: nat, msk: bytes, draw: nat, p: nat, q: nat, w: nat, y: nat)
    requires WellSizedSecret(msk) && FirstPrime(msk) == p > 1 && SecondPrime(msk) == q > 1 && ReadSecpar(msk) / 8 == w
    requires WellSized(state0) && ReadSecpar(state0) == ReadSecpar(msk) && draw < p * q
    requires y == SeekSquare(GenSquare(p * q, draw), m, p, q)
    ensures Seek(state0, m, msk, draw) == state0[..2 + w] + Export(y, w) + Export(m, 8)
  {
  }

  /** After `m` steps the state says that it is at epoch `m`. */
  lemma EpochReached(secpar: nat, p: nat, q: nat, draw: nat, state0: bytes, msk: bytes, m: nat)
    requires Keys(secpar, p, q, draw, state0, msk) && m <= MAX_U64
    ensures WellSized(state0) && Modulus(state0) > 0 && Epoch(EvolveTimes(state0, m)) == m
  {
    var n := p * q;
    var x := GenSquare(n, draw);
    ProductFits(secpar, p, q);
    StartsAtEpoch(secpar, n, x);
    EvolveTimesState(secpar, n, x, state0, m);
    SquaresBelow(x, m, n);
    StateFields(secpar, n, Squares(x, m, n), m);
  }

  /** Squaring what was drawn, and then squaring `m` times, is raising it to the power 2^(m+1). */
  lemma SquaresOfDraw(draw: nat, m: nat, n: nat)
    requires 0 < n && draw < n
    ensures GenSquare(n, draw) < n
    ensures Squares(GenSquare(n, draw), m, n) == Pow(draw, Pow(2, m + 1)) % n
  {
    var e := Pow(2, m);
    var x := (draw * draw) % n;
    Reduced(draw * draw, n);
    SquaresArePowers(x, m, n);
    PowMod(x, draw * draw, e, n);
    PowMul(draw, 2, e);
    PowTwo(draw);
  }

  lemma Reduced(a: nat, n: nat)
    requires n > 0
    ensures 0 <= a % n < n && (a % n) % n == a % n
  {
  }

  lemma PowTwo(b: nat)
    ensures Pow(b, 2) == b * b
  {
    assert Pow(b, 1) == b * Pow(b, 0);
  }

  /** The square of any epoch is a power of what was drawn: at epoch 0 its square. */
  lemma SoughtSquare(secpar: nat, p: nat, q: nat, draw: nat, state0: bytes, msk: bytes, m: nat)
    requires Keys(secpar, p, q, draw, state0, msk) && m <= MAX_U64
    ensures WellSizedSecret(msk) && FirstPrime(msk) == p && SecondPrime(msk) == q && ReadSecpar(msk) == secpar
    ensures WellSized(state0) && ReadSecpar(state0) == secpar && Modulus(state0) == p * q > 0
    ensures Square(state0) == (draw * draw) % (p * q)
    ensures var s := Seek(state0, m, msk, draw);
            && WellSized(s) && ReadSecpar(s) == secpar && Modulus(s) == p * q && Epoch(s) == m
            && Square(s) == Pow(draw, Pow(2, m + 1)) % (p * q)
            && s == StoreSecpar(secpar) + Export(p * q, secpar / 8) + Export(Pow(draw, Pow(2, m + 1)) % (p * q), secpar / 8) + Export(m, 8)
  {
    var n := p * q;
    var x := GenSquare(n, draw);
    ProductFits(secpar, p, q);
    SeekIsIteratedEvolve(secpar, p, q, draw, state0, msk, m);
    StartsAtEpoch(secpar, n, x);
    EvolveTimesState(secpar, n, x, state0, m);
    SquaresOfDraw(draw, m, n);
    SquaresBelow(x, m, n);
    StateFields(secpar, n, Squares(x, m, n), m);
    FirstSquare(secpar, n, draw);
  }

  lemma FirstSquare(secpar: nat, n: nat, draw: nat)
    requires IsValidSecpar(secpar) && draw < n < Pow(256, secpar / 8)
    ensures var s := State(secpar, n, GenSquare(n, draw), 0);
            WellSized(s) && Square(s) == (draw * draw) % n
  {
    StateFields(secpar, n, GenSquare(n, draw), 0);
    Reduced(draw * draw, n);
  }
}
