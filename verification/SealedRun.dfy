/** A sealed journal from its first byte to its verification: whatever is appended, the file
    verifies, unless its first window or its sequence numbers overflow. */
module SealedRun {
  import opened JournalGraph
  import opened Fsprg
  import opened SealedSpec
  import opened SealedVerifying
  import opened SealedWriting

  /** What key generation leaves with the writer and with the holder of the verification key. */
  ghost predicate KeyPair(state0: bytes, msk: bytes, draw: nat) {
    exists secpar: nat, p: nat, q: nat :: Keys(secpar, p, q, draw, state0, msk)
  }

  lemma PairReadable(state0: bytes, msk: bytes, draw: nat)
    requires KeyPair(state0, msk, draw)
    ensures CanSeek(state0, msk, draw)
  {
    var secpar: nat, p: nat, q: nat :| Keys(secpar, p, q, draw, state0, msk);
    KeysReadable(secpar, p, q, draw, state0, msk);
  }

  predicate CanSeek(state0: bytes, msk: bytes, draw: nat) {
    && WellSizedSecret(msk) && FirstPrime(msk) > 1 && SecondPrime(msk) > 1
    && WellSized(state0) && Modulus(state0) > 0 && ReadSecpar(state0) == ReadSecpar(msk)
    && draw < FirstPrime(msk) * SecondPrime(msk)
  }

  /** The verification key: seeks from the master secret. */
  function VerificationKey(mac: Mac, state0: bytes, msk: bytes, draw: nat, startEpoch: uint64, interval: uint64): SealKey
    requires CanSeek(state0, msk, draw)
  {
    SealKey(mac, (epoch: uint64) => Seek(state0, epoch, msk, draw), startEpoch, interval)
  }

  /** The states the verifier seeks to are the states the writer evolves through. */
  lemma KeysCoherent(mac: Mac, state0: bytes, msk: bytes, draw: nat, startEpoch: uint64, interval: uint64)
    requires KeyPair(state0, msk, draw) && CanSeek(state0, msk, draw)
    ensures Coherent(VerificationKey(mac, state0, msk, draw, startEpoch, interval))
    ensures VerificationKey(mac, state0, msk, draw, startEpoch, interval).seek(0) == state0
  {
    var key := VerificationKey(mac, state0, msk, draw, startEpoch, interval);
    forall epoch: uint64 ensures StepsAt(key, epoch) {
      KeySteps(key, state0, msk, draw, epoch);
    }
    KeySteps(key, state0, msk, draw, 0);
  }

  lemma KeySteps(key: SealKey, state0: bytes, msk: bytes, draw: nat, epoch: uint64)
    requires KeyPair(state0, msk, draw) && CanSeek(state0, msk, draw)
    requires forall e: uint64 :: key.seek(e) == Seek(state0, e, msk, draw)
    ensures StepsAt(key, epoch) && (epoch == 0 ==> key.seek(0) == state0)
  {
    SoughtSteps(state0, msk, draw, epoch);
    Stepping(key, Seek(state0, epoch, msk, draw), epoch);
  }

  lemma Stepping(key: SealKey, s: bytes, epoch: uint64)
    requires key.seek(epoch) == s && WellSized(s) && Modulus(s) > 0 && Epoch(s) == epoch
    requires epoch < MAX_U64 ==> Evolve(s) == key.seek(epoch + 1)
    ensures StepsAt(key, epoch)
  {
  }

  lemma SoughtSteps(state0: bytes, msk: bytes, draw: nat, epoch: uint64)
    requires KeyPair(state0, msk, draw) && CanSeek(state0, msk, draw)
    ensures var s := Seek(state0, epoch, msk, draw);
            && WellSized(s) && Modulus(s) > 0 && Epoch(s) == epoch
            && (epoch == 0 ==> s == state0)
            && (epoch < MAX_U64 ==> Evolve(s) == Seek(state0, epoch + 1, msk, draw))
  {
    var secpar: nat, p: nat, q: nat :| Keys(secpar, p, q, draw, state0, msk);
    SeekIsIteratedEvolve(secpar, p, q, draw, state0, msk, epoch);
    EpochReached(secpar, p, q, draw, state0, msk, epoch);
    if epoch < MAX_U64 {
      SeekIsIteratedEvolve(secpar, p, q, draw, state0, msk, epoch + 1);
      OneMoreEpoch(state0, EvolveTimes(state0, epoch), epoch + 1);
    }
  }

  datatype AppendCall = AppendCall(count: nat, opts: EntryOptions, now: uint64, data: seq<bytes>, arrays: seq<bytes>)

  // ----- what a run of calls does, from its inputs alone

  predicate Accepts(s: Setup, g: Gate, c: AppendCall)
    requires s.interval > 0
  {
    c.count > 0 && Admits(s, g, c.opts, c.now)
  }

  function Offer(s: Setup, g: Gate, c: AppendCall): Gate
    requires s.interval > 0
  {
    if Accepts(s, g, c) then GateAfter(s, g, EntryFor(s, g, c.opts, c.now)) else g
  }

  /** What one call adds to the file. */
  function Wrote(s: Setup, g: Gate, c: AppendCall): seq<EntryRecord>
    requires s.interval > 0
  {
    if Accepts(s, g, c) then [EntryFor(s, g, c.opts, c.now)] else []
  }

  /** The entries that a run of calls writes. */
  function Written(s: Setup, g: Gate, calls: seq<AppendCall>): seq<EntryRecord>
    requires s.interval > 0
    decreases |calls|
  {
    if calls == [] then []
    else Wrote(s, g, calls[0]) + Written(s, Offer(s, g, calls[0]), calls[1..])
  }

  /** No call is accepted after the sequence numbers were used up. */
  predicate NeverWraps(s: Setup, g: Gate, calls: seq<AppendCall>)
    requires s.interval > 0
    decreases |calls|
  {
    calls == [] ||
    (!(Accepts(s, g, calls[0]) && Exhausted(g)) && NeverWraps(s, Offer(s, g, calls[0]), calls[1..]))
  }

  method AppendOne(w: SealedWriter, c: AppendCall)
    requires w.Valid()
    modifies w
    ensures w.Valid() && w.Gated() == old(Offer(w.Rules(), w.Gated(), c))
    ensures Entries(w.objects) == old(Entries(w.objects) + Wrote(w.Rules(), w.Gated(), c))
    ensures SeqnumsFit(Entries(w.objects)) <==>
              old(SeqnumsFit(Entries(w.objects)) && !(Accepts(w.Rules(), w.Gated(), c) && Exhausted(w.Gated())))
  {
    var r := w.Append(c.count, c.opts, c.now, c.data, c.arrays);
  }

  /** Makes every call (some may be refused). What is written, and whether the numbers last, is
      decided by the gate and the calls. */
  method AppendAll(w: SealedWriter, calls: seq<AppendCall>)
    requires w.Valid()
    modifies w
    ensures w.Valid()
    ensures Entries(w.objects) == old(Entries(w.objects) + Written(w.Rules(), w.Gated(), calls))
    ensures SeqnumsFit(Entries(w.objects)) <==> old(SeqnumsFit(Entries(w.objects)) && NeverWraps(w.Rules(), w.Gated(), calls))
    decreases |calls|
  {
    if calls == [] { return; }
    ghost var s, g, entries := w.Rules(), w.Gated(), Entries(w.objects);
    AppendOne(w, calls[0]);
    ghost var middle := Entries(w.objects);
    AppendAll(w, calls[1..]);
    FirstThenRest(s, g, calls, entries, middle, Entries(w.objects));
  }

  lemma FirstThenRest(s: Setup, g: Gate, calls: seq<AppendCall>,
                      before: seq<EntryRecord>, middle: seq<EntryRecord>, after: seq<EntryRecord>)
    requires s.interval > 0 && calls != []
    requires middle == before + Wrote(s, g, calls[0])
    requires after == middle + Written(s, Offer(s, g, calls[0]), calls[1..])
    ensures after == before + Written(s, g, calls)
    ensures NeverWraps(s, g, calls) <==>
              !(Accepts(s, g, calls[0]) && Exhausted(g)) && NeverWraps(s, Offer(s, g, calls[0]), calls[1..])
  {
  }

  /** Creates a sealed file, makes every append (some may be refused) and verifies the result.
      Verification succeeds exactly when the end of epoch 0 fits 64 bits and no call is accepted
      after the last sequence number, both of which a caller can tell beforehand. */
  method WriteAndVerify(mac: Mac, state0: bytes, msk: bytes, draw: nat, startUsec: uint64, interval: uint64,
                        bootId: nat, headSeqnum: uint64, fieldTable: bytes, dataTable: bytes, calls: seq<AppendCall>)
    returns (accepted: bool, objects: seq<Object>)
    requires startUsec >= interval > 0 && bootId > 0 && KeyPair(state0, msk, draw)
    ensures var s := Setup(RoundedDown(startUsec, interval), interval, bootId);
            && (accepted <==> s.start + interval <= MAX_U64 && NeverWraps(s, FirstGate(headSeqnum), calls))
            && Entries(objects) == Written(s, FirstGate(headSeqnum), calls)
  {
    PairReadable(state0, msk, draw);
    var key := KeyFor(mac, state0, msk, draw, startUsec, interval);
    accepted, objects := WriteThenVerify(key, mac, state0, startUsec, interval, bootId, headSeqnum, fieldTable, dataTable, calls);
  }

  /** The verification key of a file that starts at `startUsec`. */
  method KeyFor(mac: Mac, state0: bytes, msk: bytes, draw: nat, startUsec: uint64, interval: uint64) returns (key: SealKey)
    requires startUsec >= interval > 0 && KeyPair(state0, msk, draw) && CanSeek(state0, msk, draw)
    ensures Coherent(key) && key.mac == mac && key.seek(0) == state0
    ensures key.interval == interval && key.startEpoch == FirstEpoch(startUsec, interval)
  {
    key := VerificationKey(mac, state0, msk, draw, FirstEpoch(startUsec, interval), interval);
    KeysCoherent(mac, state0, msk, draw, FirstEpoch(startUsec, interval), interval);
  }

  method WriteThenVerify(key: SealKey, mac: Mac, state0: bytes, startUsec: uint64, interval: uint64,
                         bootId: nat, headSeqnum: uint64, fieldTable: bytes, dataTable: bytes, calls: seq<AppendCall>)
    returns (accepted: bool, objects: seq<Object>)
    requires startUsec >= interval > 0 && bootId > 0
    requires Coherent(key) && key.mac == mac && key.seek(0) == state0
    requires key.interval == interval && key.startEpoch == FirstEpoch(startUsec, interval)
    ensures var s := Setup(RoundedDown(startUsec, interval), interval, bootId);
            && (accepted <==> s.start + interval <= MAX_U64 && NeverWraps(s, FirstGate(headSeqnum), calls))
            && Entries(objects) == Written(s, FirstGate(headSeqnum), calls)
  {
    var w := new SealedWriter(key, mac, state0, startUsec, interval, bootId, headSeqnum, fieldTable, dataTable);
    AppendAll(w, calls);
    objects := w.objects;
    var header := FileHeader(Head(w.headSeqnum, w.headRealtime), Consecutive, |objects|, w.nEntries, w.nTags);
    FileVerdict(w, header);
    var v := new SealedVerifier(objects, header, key);
    accepted := v.Run();
  }

  /** A valid writer's file passes exactly under the two overflow conditions. */
  lemma FileVerdict(w: SealedWriter, header: FileHeader)
    requires w.Valid() && header == w.Header()
    ensures Accepted(w.objects, header, w.key)
       <==> w.Rules().start + w.Rules().interval <= MAX_U64 && SeqnumsFit(Entries(w.objects))
  {
  }

  // ----- the two ways to fail

  /** An append with the given number (0 for the next one) at microsecond `usec`. */
  function CallAt(seqnum: uint64, usec: uint64): AppendCall {
    AppendCall(1, EntryOptions(usec, true, usec, true, 1, seqnum), 0, [], [])
  }

  /** Three appends: one numbered 2^64-2 by the caller, then two numbered by the writer. */
  const LAST_NUMBERS: seq<AppendCall> := [CallAt(MAX_U64 - 1, 1), CallAt(0, 2), CallAt(0, 3)]

  lemma LastNumbersWrap(s: Setup, g: Gate)
    requires s == Setup(1, 1, 1) && g == FirstGate(0)
    ensures !NeverWraps(s, g, LAST_NUMBERS)
  {
    var g1 := Gate(0, 1, MAX_U64, 1, 1);
    var g2 := Gate(1, 2, 0, 2, 1);
    assert Accepts(s, g, LAST_NUMBERS[0]) && Offer(s, g, LAST_NUMBERS[0]) == g1;
    assert Accepts(s, g1, LAST_NUMBERS[1]) && Offer(s, g1, LAST_NUMBERS[1]) == g2;
    assert Accepts(s, g2, LAST_NUMBERS[2]) && Exhausted(g2);
    var rest := LAST_NUMBERS[1..];
    assert rest[0] == LAST_NUMBERS[1] && rest[1..][0] == LAST_NUMBERS[2];
    assert !NeverWraps(s, g2, rest[1..]);
    assert !NeverWraps(s, g1, rest);
  }

  /** Every one of the three appends is accepted, and the file does not verify. */
  method RunsOutOfNumbers(mac: Mac, state0: bytes, msk: bytes, draw: nat) returns (accepted: bool)
    requires KeyPair(state0, msk, draw)
    ensures !accepted
  {
    LastNumbersWrap(Setup(1, 1, 1), FirstGate(0));
    var objects;
    accepted, objects := WriteAndVerify(mac, state0, msk, draw, 1, 1, 1, 0, [], [], LAST_NUMBERS);
  }

  const HALF: uint64 := 0x8000_0000_0000_0000

  /** A first window from 2^63 to 2^64: the file does not verify even without an entry. */
  method StartsTooLate(mac: Mac, state0: bytes, msk: bytes, draw: nat) returns (accepted: bool)
    requires KeyPair(state0, msk, draw)
    ensures !accepted
  {
    var objects;
    accepted, objects := WriteAndVerify(mac, state0, msk, draw, HALF, HALF, 1, 0, [], [], []);
  }
}
