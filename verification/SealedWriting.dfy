/** The sealing side of the writer (go/journal/seal.go and the append path of go/journal/writer.go). */
module SealedWriting {
  import opened JournalGraph
  import opened Fsprg
  import opened SealedSpec
  import N = NumberTheory

  // ----- what the writer needs of a key

  /** Evolving the state of an epoch gives the state of the next. */
  ghost predicate StepsAt(key: SealKey, epoch: uint64) {
    var s := key.seek(epoch);
    && WellSized(s) && Modulus(s) > 0 && Epoch(s) == epoch
    && (epoch < MAX_U64 ==> Evolve(s) == key.seek(epoch + 1))
  }

  ghost predicate Coherent(key: SealKey) {
    forall epoch: uint64 {:trigger StepsAt(key, epoch)} :: StepsAt(key, epoch)
  }

  // ----- facts about single steps

  /** The epochs of a writer's tags: the first two are 0, then they rise one by one. */
  ghost predicate Scheduled(tags: seq<TagRecord>)
  {
    |tags| > 0 && tags[|tags|-1].epoch == if |tags| == 1 then 0 else |tags| - 2
  }

  ghost predicate InEpoch(objects: seq<Object>, key: SealKey, epoch: nat) {
    && AllBelow(Entries(objects), Window(key, epoch) + key.interval)
    && AllFrom(Entries(SinceTag(objects)), Window(key, epoch))
  }

  /** No entry follows one that used up the sequence numbers. */
  ghost predicate SeqnumsFit(entries: seq<EntryRecord>)
  {
    forall i :: 0 <= i < |entries| - 1 ==> entries[i].seqnum < MAX_U64
  }

  lemma WindowStep(key: SealKey, epoch: nat)
    ensures Window(key, epoch + 1) == Window(key, epoch) + key.interval
  {
    assert (key.startEpoch + epoch + 1) * key.interval == (key.startEpoch + epoch) * key.interval + key.interval;
  }

  lemma WindowGrows(key: SealKey, a: nat, b: nat)
    requires a <= b
    ensures Window(key, a) <= Window(key, b)
  {
    assert Window(key, b) == Window(key, a) + (b - a) * key.interval;
  }

  lemma Multiple(a: nat, m: nat)
    requires m > 0
    ensures a <= a * m
  {
  }

  lemma Quotient(a: nat, m: nat)
    requires m > 0
    ensures 0 <= a / m <= a && (a / m) * m <= a < (a / m) * m + m
  {
    var q := a / m;
    assert q * m <= a < q * m + m;
    Multiple(q, m);
  }

  /** The epoch a time falls into. */
  function GoalEpoch(realtime: uint64, start: uint64, interval: uint64): (goal: uint64)
    requires interval > 0 && realtime >= start
    ensures goal * interval <= realtime - start < goal * interval + interval
  {
    Quotient(realtime - start, interval);
    (realtime - start) / interval
  }

  lemma GoalWindow(key: SealKey, realtime: uint64, start: uint64, goal: uint64)
    requires key.interval > 0 && start == key.startEpoch * key.interval
    requires realtime >= start && goal == GoalEpoch(realtime, start, key.interval)
    ensures Window(key, goal) <= realtime < Window(key, goal) + key.interval
  {
    assert Window(key, goal) == start + goal * key.interval;
  }

  /** A tag that closes an epoch passes every check. */
  lemma ClosingTagPasses(objects: seq<Object>, tag: TagRecord, key: SealKey, epoch: nat)
    requires tag.epoch == epoch && tag.number == |Tags(objects)| + 1 == epoch + 2
    requires Scheduled(Tags(objects)) && InEpoch(objects, key, epoch) && TagSigned(objects, tag, key)
    requires Window(key, epoch) + key.interval <= MAX_U64
    ensures SealCheck(objects, Tag(tag), key, Consecutive)
  {
  }

  /** The first tag passes exactly when the end of epoch 0 fits 64 bits. */
  lemma FirstTagPasses(objects: seq<Object>, tag: TagRecord, key: SealKey)
    requires tag.epoch == 0 && tag.number == 1 && TagSigned(objects, tag, key)
    requires Tags(objects) == [] && Entries(objects) == [] && Entries(SinceTag(objects)) == []
    ensures SealCheck(objects, Tag(tag), key, Consecutive) <==> Window(key, 0) + key.interval <= MAX_U64
  {
  }

  /** An entry of the current epoch is never older than the last tag. */
  lemma EntryPasses(objects: seq<Object>, e: EntryRecord, key: SealKey, epoch: nat)
    requires Scheduled(Tags(objects)) && |Tags(objects)| <= epoch + 2
    requires Window(key, epoch) <= e.realtime
    ensures SealCheck(objects, Entry(e), key, Consecutive)
  {
    var tags := Tags(objects);
    WindowGrows(key, tags[|tags|-1].epoch, epoch);
  }

  lemma InEpochAppended(objects: seq<Object>, o: Object, key: SealKey, epoch: nat)
    requires InEpoch(objects, key, epoch)
    requires o.Entry? ==> Window(key, epoch) <= o.entry.realtime < Window(key, epoch) + key.interval
    ensures InEpoch(objects + [o], key, epoch)
  {
    PartsAppended(objects, o);
    BoundsExtended(Entries(objects), Entries(SinceTag(objects)), o, Window(key, epoch), Window(key, epoch) + key.interval);
  }

  lemma BoundsExtended(entries: seq<EntryRecord>, recent: seq<EntryRecord>, o: Object, begin: nat, end: nat)
    requires AllBelow(entries, end) && AllFrom(recent, begin) && (o.Entry? ==> begin <= o.entry.realtime < end)
    ensures AllBelow(WithEntry(entries, o), end) && AllFrom(WithEntry(recent, o), begin)
  {
  }

  lemma InEpochEvolved(objects: seq<Object>, key: SealKey, epoch: nat)
    requires InEpoch(objects, key, epoch) && SinceTag(objects) == []
    ensures InEpoch(objects, key, epoch + 1)
  {
    WindowStep(key, epoch);
  }

  lemma ScheduledAppended(objects: seq<Object>, tag: TagRecord)
    requires tag.epoch == (if Tags(objects) == [] then 0 else |Tags(objects)| - 1)
    ensures Scheduled(Tags(objects + [Tag(tag)]))
  {
    Appended(objects, Tag(tag));
  }

  lemma SeqnumsFitAppended(entries: seq<EntryRecord>, e: EntryRecord)
    ensures SeqnumsFit(entries + [e]) <==> SeqnumsFit(entries) && (entries != [] ==> entries[|entries|-1].seqnum < MAX_U64)
  {
    var more := entries + [e];
    assert forall i :: 0 <= i < |entries| ==> more[i] == entries[i];
    if SeqnumsFit(more) && entries != [] {
      assert more[|entries|-1].seqnum < MAX_U64;
    }
  }

  /** `after` extends `before` by objects that are not entries. */
  ghost predicate Padded(before: seq<Object>, after: seq<Object>) {
    before <= after && forall i :: |before| <= i < |after| ==> !after[i].Entry?
  }

  lemma {:induction false} PaddedEntries(before: seq<Object>, after: seq<Object>, head: Head)
    requires Padded(before, after)
    ensures Entries(after) == Entries(before) && (EntriesPass(after, head) <==> EntriesPass(before, head))
    decreases |after|
  {
    if |after| == |before| {
      assert after == before;
    } else {
      var n := |after| - 1;
      PaddedEntries(before, after[..n], head);
      assert after == after[..n] + [after[n]];
      Appended(after[..n], after[n]);
      EntriesPassAppended(after[..n], after[n], head);
    }
  }

  /** Before the first entry, the header's head fields are not looked at. */
  lemma {:induction false} NoEntriesPass(objects: seq<Object>, head: Head)
    requires Entries(objects) == []
    ensures EntriesPass(objects, head)
    decreases |objects|
  {
    if objects != [] {
      var n := |objects| - 1;
      assert objects == objects[..n] + [objects[n]];
      Appended(objects[..n], objects[n]);
      NoEntriesPass(objects[..n], head);
      EntriesPassAppended(objects[..n], objects[n], head);
    }
  }

  /** The first entry always passes, as the header then names it. */
  lemma FirstEntryPasses(objects: seq<Object>, e: EntryRecord, head: Head)
    requires Entries(objects) == [] && head == Head(e.seqnum, e.realtime)
    ensures EntriesPass(objects + [Entry(e)], head) && SeqnumsFit(Entries(objects + [Entry(e)]))
  {
    NoEntriesPass(objects, head);
    EntriesPassAppended(objects, Entry(e), head);
    Appended(objects, Entry(e));
  }

  /** A later entry passes exactly when the sequence numbers were not used up before it. */
  lemma LaterEntryPasses(objects: seq<Object>, e: EntryRecord, head: Head)
    requires Entries(objects) != []
    requires EntriesPass(objects, head) <==> SeqnumsFit(Entries(objects))
    requires var last := Entries(objects)[|Entries(objects)|-1];
             && (last.seqnum < MAX_U64 ==> e.seqnum > last.seqnum)
             && (e.boot == last.boot ==> e.monotonic > last.monotonic)
    ensures EntriesPass(objects + [Entry(e)], head) <==> SeqnumsFit(Entries(objects + [Entry(e)]))
  {
    EntriesPassAppended(objects, Entry(e), head);
    Appended(objects, Entry(e));
    SeqnumsFitAppended(Entries(objects), e);
  }

  lemma EntryPublished(before: seq<Object>, e: EntryRecord, head: Head, headAfter: Head, after: seq<Object>)
    requires Pushed(before, Entry(e), after)
    requires (EntriesPass(before, head) <==> SeqnumsFit(Entries(before)))
    requires headAfter == if Entries(before) == [] then Head(e.seqnum, e.realtime) else head
    requires Entries(before) != [] ==>
               var last := Entries(before)[|Entries(before)|-1];
               && (last.seqnum < MAX_U64 ==> e.seqnum > last.seqnum)
               && (e.boot == last.boot ==> e.monotonic > last.monotonic)
    ensures Entries(after) == Entries(before) + [e]
    ensures EntriesPass(after, headAfter) <==> SeqnumsFit(Entries(after))
  {
    assert after == before + [Entry(e)];
    Appended(before, Entry(e));
    if Entries(before) == [] {
      FirstEntryPasses(before, e, headAfter);
    } else {
      LaterEntryPasses(before, e, headAfter);
    }
  }

  /** Tags so far follow the schedule, entries so far lie in their epochs, and every seal check
      passes unless the very first window is out of range. */
  ghost predicate SealedSoFar(objects: seq<Object>, key: SealKey, epoch: nat) {
    && Scheduled(Tags(objects)) && InEpoch(objects, key, epoch)
    && (SealsPass(objects, key, Consecutive) <==> Window(key, 0) + key.interval <= MAX_U64)
  }

  lemma EpochCloses(before: seq<Object>, tag: TagRecord, key: SealKey, epoch: nat, after: seq<Object>)
    requires Pushed(before, Tag(tag), after)
    requires SealedSoFar(before, key, epoch) && |Tags(before)| == epoch + 1
    requires tag.epoch == epoch && tag.number == epoch + 2 && TagSigned(before, tag, key)
    requires Window(key, epoch) + key.interval <= MAX_U64
    ensures SealedSoFar(after, key, epoch) && |Tags(after)| == epoch + 2
    ensures SinceTag(after) == [] && Padded(before, after)
  {
    assert after == before + [Tag(tag)];
    SealsClosed(before, tag, key, epoch);
    InEpochAppended(before, Tag(tag), key, epoch);
    ScheduledAppended(before, tag);
    Appended(before, Tag(tag));
  }

  lemma SealsClosed(before: seq<Object>, tag: TagRecord, key: SealKey, epoch: nat)
    requires SealedSoFar(before, key, epoch) && |Tags(before)| == epoch + 1
    requires tag.epoch == epoch && tag.number == epoch + 2 && TagSigned(before, tag, key)
    requires Window(key, epoch) + key.interval <= MAX_U64
    ensures SealsPass(before + [Tag(tag)], key, Consecutive) <==> SealsPass(before, key, Consecutive)
  {
    ClosingTagPasses(before, tag, key, epoch);
    SealsPassAppended(before, Tag(tag), key, Consecutive);
  }

  lemma EntryKeepsSchedule(before: seq<Object>, o: Object, key: SealKey, epoch: nat)
    requires SealedSoFar(before, key, epoch) && |Tags(before)| == epoch + 1 && !o.Tag?
    requires o.Entry? ==> Window(key, epoch) <= o.entry.realtime < Window(key, epoch) + key.interval
    ensures SealedSoFar(before + [o], key, epoch) && |Tags(before + [o])| == epoch + 1
  {
    if o.Entry? { EntryPasses(before, o.entry, key, epoch); }
    SealsPassAppended(before, o, key, Consecutive);
    InEpochAppended(before, o, key, epoch);
    Appended(before, o);
  }

  /** The writer's running digest covers what the next tag must cover, under the current state. */
  ghost predicate DigestReady(running: bool, under: bytes, input: seq<Chunk>, state: bytes, objects: seq<Object>) {
    if running then under == state && input == Covered(objects) else Covered(objects) == []
  }

  lemma ObjectPut(objects: seq<Object>, o: Object, key: SealKey, epoch: nat, after: seq<Object>)
    requires Pushed(objects, o, after)
    requires SealedSoFar(objects, key, epoch) && |Tags(objects)| == epoch + 1 && !o.Tag?
    requires o.Entry? ==> Window(key, epoch) <= o.entry.realtime < Window(key, epoch) + key.interval
    ensures SealedSoFar(after, key, epoch) && |Tags(after)| == epoch + 1
    ensures Covered(after) == Covered(objects) + [Chunked(o)]
  {
    assert after == objects + [o];
    EntryKeepsSchedule(objects, o, key, epoch);
    CoveredAppended(objects, o);
  }

  lemma TagWritten(objects: seq<Object>, tag: TagRecord, key: SealKey, input: seq<Chunk>, after: seq<Object>)
    requires Pushed(objects, Tag(tag), after)
    requires input == Covered(objects) + [Chunked(Tag(tag))]
    ensures |Tags(after)| == |Tags(objects)| + 1 && Covered(after) == []
    ensures tag.digest == key.mac(key.seek(tag.epoch), input) ==> TagSigned(objects, tag, key)
  {
    assert after == objects + [Tag(tag)];
    Appended(objects, Tag(tag));
    CoveredAfterTag(objects, Tag(tag));
  }

  // ----- the writer

  datatype EntryOptions = EntryOptions(
    realtime: uint64, realtimeSet: bool, monotonic: uint64, monotonicSet: bool, boot: nat, seqnum: uint64)

  datatype AppendError =
    | EmptyEntry | MissingMonotonic | MissingBoot | MonotonicOverflow | InvalidSeqnum | BeforeStart | EpochPassed

  datatype Prepared = Refused(error: AppendError) | Prepared(entry: EntryRecord)

  // ----- the gate in front of every append

  /** What a writer is created with. */
  datatype Setup = Setup(start: uint64, interval: uint64, bootId: nat)

  /** What decides whether an entry is written, and as what. */
  datatype Gate = Gate(epoch: nat, nEntries: nat, nextSeqnum: uint64, tailMonotonic: uint64, tailBoot: nat)

  function RealtimeOf(opts: EntryOptions, now: uint64): uint64 {
    if opts.realtime == 0 && !opts.realtimeSet then now else opts.realtime
  }

  function BootOf(s: Setup, opts: EntryOptions): nat {
    if opts.boot == 0 then s.bootId else opts.boot
  }

  /** What the writer accepts. */
  predicate Admits(s: Setup, g: Gate, opts: EntryOptions, now: uint64)
    requires s.interval > 0
  {
    && (opts.monotonic != 0 || opts.monotonicSet)
    && BootOf(s, opts) != 0
    && (BootOf(s, opts) == g.tailBoot ==> opts.monotonic > g.tailMonotonic || g.tailMonotonic < MAX_U64)
    && (opts.seqnum == 0 || g.nextSeqnum <= opts.seqnum < MAX_U64)
    && RealtimeOf(opts, now) >= s.start
    && g.epoch <= GoalEpoch(RealtimeOf(opts, now), s.start, s.interval)
  }

  /** The entry an accepted append writes. */
  function EntryFor(s: Setup, g: Gate, opts: EntryOptions, now: uint64): EntryRecord
    requires s.interval > 0 && Admits(s, g, opts, now)
  {
    EntryRecord(
      if opts.seqnum == 0 then g.nextSeqnum else opts.seqnum,
      RealtimeOf(opts, now),
      if BootOf(s, opts) == g.tailBoot && opts.monotonic <= g.tailMonotonic then g.tailMonotonic + 1 else opts.monotonic,
      BootOf(s, opts))
  }

  /** What the caller gives is written as given: the boot, the time and the number, and the clock
      unless an entry of the same boot already stands there; the writer only fills in the rest. */
  lemma EntryAsAsked(s: Setup, g: Gate, opts: EntryOptions, now: uint64)
    requires s.interval > 0 && Admits(s, g, opts, now)
    ensures var e := EntryFor(s, g, opts, now);
            && (opts.boot != 0 ==> e.boot == opts.boot) && (opts.boot == 0 ==> e.boot == s.bootId) && e.boot != 0
            && (opts.realtime != 0 || opts.realtimeSet ==> e.realtime == opts.realtime)
            && (opts.realtime == 0 && !opts.realtimeSet ==> e.realtime == now)
            && (opts.seqnum != 0 ==> e.seqnum == opts.seqnum) && (opts.seqnum == 0 ==> e.seqnum == g.nextSeqnum)
            && (e.boot != g.tailBoot || opts.monotonic > g.tailMonotonic ==> e.monotonic == opts.monotonic)
            && (e.boot == g.tailBoot ==> e.monotonic > g.tailMonotonic)
  {
  }

  /** Automatic numbers follow one another, from the number a file starts with or 1. */
  lemma NumbersFollow(s: Setup, g: Gate, e: EntryRecord, opts: EntryOptions, now: uint64, headSeqnum: uint64)
    requires s.interval > 0 && e.realtime >= s.start && opts.seqnum == 0
    ensures Admits(s, GateAfter(s, g, e), opts, now) && e.seqnum < MAX_U64 ==> EntryFor(s, GateAfter(s, g, e), opts, now).seqnum == e.seqnum + 1
    ensures Admits(s, FirstGate(headSeqnum), opts, now) ==>
              EntryFor(s, FirstGate(headSeqnum), opts, now).seqnum == if headSeqnum != 0 then headSeqnum else 1
  {
  }

  /** An entry is written exactly if a clock and some boot are given, the clock of that boot can go
      on, the number has not been passed, and the time lies in an epoch that is not closed. */
  lemma AdmitsExactly(s: Setup, g: Gate, opts: EntryOptions, now: uint64)
    requires s.interval > 0
    ensures Admits(s, g, opts, now) <==>
              var boot := if opts.boot != 0 then opts.boot else s.bootId;
              var time := if opts.realtime != 0 || opts.realtimeSet then opts.realtime else now;
              && (opts.monotonic != 0 || opts.monotonicSet) && boot != 0
              && (boot == g.tailBoot && opts.monotonic <= g.tailMonotonic ==> g.tailMonotonic < MAX_U64)
              && (opts.seqnum != 0 ==> g.nextSeqnum <= opts.seqnum < MAX_U64)
              && time >= s.start + g.epoch * s.interval
  {
    var time := if opts.realtime != 0 || opts.realtimeSet then opts.realtime else now;
    if time >= s.start { GoalReached(time, s.start, s.interval, g.epoch); }
    NotBefore(g.epoch, s.interval);
  }

  lemma NotBefore(epoch: nat, interval: nat)
    ensures epoch * interval >= 0
  {
  }

  lemma GoalReached(realtime: uint64, start: uint64, interval: uint64, epoch: nat)
    requires interval > 0 && realtime >= start
    ensures epoch <= GoalEpoch(realtime, start, interval) <==> realtime >= start + epoch * interval
  {
    var q := (realtime - start) / interval;
    Quotient(realtime - start, interval);
    if epoch > q { N.MulMonotone(q + 1, epoch, interval); } else { N.MulMonotone(epoch, q, interval); }
  }

  /** The number after `seqnum`, in 64 bits. */
  function Successor(seqnum: uint64): uint64 {
    if seqnum == MAX_U64 then 0 else seqnum + 1
  }

  /** The gate after an entry was written. */
  function GateAfter(s: Setup, g: Gate, e: EntryRecord): Gate
    requires s.interval > 0 && e.realtime >= s.start
  {
    Gate(GoalEpoch(e.realtime, s.start, s.interval), g.nEntries + 1, Successor(e.seqnum), e.monotonic, e.boot)
  }

  /** The gate of a new file. */
  function FirstGate(headSeqnum: uint64): Gate {
    Gate(0, 0, if headSeqnum == 0 then 1 else headSeqnum, 0, 0)
  }

  /** The number 2^64-1 has been written, so the next automatic number is 0. */
  predicate Exhausted(g: Gate) {
    g.nEntries > 0 && g.nextSeqnum == 0
  }

  class SealedWriter {
    ghost const key: SealKey
    const mac: Mac
    const start: uint64
    const interval: uint64
    const bootId: nat

    ghost var epoch: uint64
    var objects: seq<Object>
    var fsprgState: bytes
    var hmacRunning: bool
    var hmacKey: bytes
    var hmacInput: seq<Chunk>
    var nTags: nat
    var nEntries: nat
    var headSeqnum: uint64
    var headRealtime: uint64
    var tailSeqnum: uint64
    var tailMonotonic: uint64
    var tailBoot: nat
    var nextSeqnum: uint64

    ghost function Header(): FileHeader
      reads this
    {
      FileHeader(Head(headSeqnum, headRealtime), Consecutive, |objects|, nEntries, nTags)
    }

    ghost predicate Keyed()
      reads this`epoch, this`fsprgState
    {
      && Coherent(key) && mac == key.mac && fsprgState == key.seek(epoch)
      && interval == key.interval > 0 && start == key.startEpoch * key.interval && start > 0 && key.startEpoch > 0
    }

    ghost predicate Digesting()
      reads this`objects, this`fsprgState, this`hmacRunning, this`hmacKey, this`hmacInput, this`nTags
    {
      DigestReady(hmacRunning, hmacKey, hmacInput, fsprgState, objects) && nTags == |Tags(objects)|
    }

    ghost predicate OnSchedule(tags: nat)
      reads this`objects, this`epoch
    {
      SealedSoFar(objects, key, epoch) && |Tags(objects)| == tags
    }

    ghost predicate Numbered(entries: seq<EntryRecord>)
      reads this`nEntries, this`headSeqnum, this`headRealtime, this`tailSeqnum, this`tailMonotonic, this`tailBoot, this`nextSeqnum
    {
      && nEntries == |entries|
      && if nEntries == 0 then headSeqnum == 0 && headRealtime == 0 && tailBoot == 0 && nextSeqnum > 0
         else
           var last := entries[nEntries-1];
           && headSeqnum > 0 && headRealtime > 0 && last.seqnum == tailSeqnum && last.monotonic == tailMonotonic
           && last.boot == tailBoot > 0 && nextSeqnum == Successor(tailSeqnum)
    }

    ghost predicate EntriesChecked()
      reads this`objects, this`headSeqnum, this`headRealtime
    {
      EntriesPass(objects, Head(headSeqnum, headRealtime)) <==> SeqnumsFit(Entries(objects))
    }

    ghost predicate Valid()
      reads this
    {
      && Keyed() && Digesting() && OnSchedule(epoch + 1)
      && Numbered(Entries(objects)) && EntriesChecked()
    }

    // ----- tags

    method GetEpoch() returns (e: uint64)
      requires Keyed()
      ensures e == epoch
    {
      assert StepsAt(key, epoch);
      e := Epoch(fsprgState);
    }

    method Evolved()
      requires Keyed() && epoch < MAX_U64
      modifies this`fsprgState, this`epoch
      ensures Keyed() && epoch == old(epoch) + 1
    {
      assert StepsAt(key, epoch);
      fsprgState := Evolve(fsprgState);
      epoch := epoch + 1;
    }

    method Store(o: Object)
      modifies this`objects
      ensures Pushed(old(objects), o, objects)
    {
      objects := objects + [o];
    }

    method HmacStart()
      requires Digesting() && (Tags(objects) == [] ==> hmacRunning)
      modifies this`hmacRunning, this`hmacKey, this`hmacInput
      ensures Digesting() && hmacRunning
    {
      if !hmacRunning { hmacRunning, hmacKey, hmacInput := true, fsprgState, []; }
    }

    /** Writes a tag over everything since the last one. */
    method WriteTag() returns (ghost tag: TagRecord)
      requires Keyed() && Digesting() && nTags < MAX_U64 && (Tags(objects) == [] ==> hmacRunning)
      modifies this`objects, this`hmacRunning, this`hmacKey, this`hmacInput, this`nTags
      ensures Digesting() && !hmacRunning
      ensures tag.epoch == epoch && tag.number == old(nTags) + 1 && Pushed(old(objects), Tag(tag), objects)
      ensures TagSigned(old(objects), tag, key)
    {
      HmacStart();
      var e := GetEpoch();
      var unsigned := TagRecord(nTags + 1, e, []);
      hmacInput := hmacInput + [Chunked(Tag(unsigned))];
      var signed := unsigned.(digest := mac(hmacKey, hmacInput));
      tag := signed;
      ghost var before := objects;
      Store(Tag(signed));
      TagWritten(before, signed, key, hmacInput, objects);
      nTags := nTags + 1;
      hmacRunning := false;
    }

    /** Closes the current epoch with a tag. */
    method AppendTag()
      requires Keyed() && Digesting() && OnSchedule(epoch + 1)
      requires Window(key, epoch) + key.interval <= MAX_U64
      modifies this`objects, this`hmacRunning, this`hmacKey, this`hmacInput, this`nTags
      ensures Digesting() && OnSchedule(epoch + 2) && !hmacRunning && SinceTag(objects) == []
      ensures Padded(old(objects), objects)
    {
      ghost var before := objects;
      EpochBelow(key, epoch);
      ghost var tag := WriteTag();
      EpochCloses(before, tag, key, epoch, objects);
    }

    /** One round of the catch-up: evolve, and tag the epoch unless it is the goal. */
    method StepEpoch(goal: uint64, realtime: uint64)
      requires Keyed() && Digesting() && !hmacRunning && SinceTag(objects) == []
      requires epoch < goal && Window(key, goal) <= realtime && OnSchedule(epoch + 2)
      modifies this`objects, this`hmacRunning, this`hmacKey, this`hmacInput, this`nTags, this`fsprgState, this`epoch
      ensures Keyed() && Digesting() && !hmacRunning && SinceTag(objects) == []
      ensures epoch == old(epoch) + 1 && OnSchedule(if epoch < goal then epoch + 2 else epoch + 1)
      ensures Padded(old(objects), objects)
    {
      InEpochEvolved(objects, key, epoch);
      Evolved();
      var e := GetEpoch();
      if e < goal {
        EndFits(key, epoch, goal, realtime);
        AppendTag();
      }
    }

    method CatchUp(goal: uint64, realtime: uint64)
      requires Keyed() && Digesting() && !hmacRunning && SinceTag(objects) == []
      requires epoch < goal && Window(key, goal) <= realtime && OnSchedule(epoch + 2)
      modifies this`objects, this`hmacRunning, this`hmacKey, this`hmacInput, this`nTags, this`fsprgState, this`epoch
      ensures Keyed() && Digesting() && epoch == goal && OnSchedule(epoch + 1)
      ensures Padded(old(objects), objects)
    {
      var e := GetEpoch();
      while e < goal
        invariant e == epoch <= goal && Keyed() && Digesting() && !hmacRunning && SinceTag(objects) == []
        invariant OnSchedule(if epoch < goal then epoch + 2 else epoch + 1)
        invariant Padded(old(objects), objects)
      {
        StepEpoch(goal, realtime);
        e := GetEpoch();
      }
    }

    /** Brings the writer to the epoch of `realtime`, closing every epoch on the way. */
    method MaybeAppendTag(realtime: uint64)
      requires Keyed() && Digesting() && OnSchedule(epoch + 1)
      requires realtime >= start && epoch <= GoalEpoch(realtime, start, interval)
      modifies this`objects, this`hmacRunning, this`hmacKey, this`hmacInput, this`nTags, this`fsprgState, this`epoch
      ensures Keyed() && Digesting() && OnSchedule(epoch + 1) && epoch == GoalEpoch(realtime, start, interval)
      ensures Padded(old(objects), objects)
    {
      var goal := GoalEpoch(realtime, start, interval);
      GoalWindow(key, realtime, start, goal);
      var e := GetEpoch();
      if e == goal { return; }
      EndFits(key, epoch, goal, realtime);
      AppendTag();
      CatchUp(goal, realtime);
    }

    // ----- objects and entries

    /** Writes an object that is not a tag and feeds it to the digest. */
    method Put(o: Object)
      requires Keyed() && Digesting() && OnSchedule(epoch + 1) && !o.Tag?
      requires o.Entry? ==> Window(key, epoch) <= o.entry.realtime < Window(key, epoch) + key.interval
      modifies this`objects, this`hmacRunning, this`hmacKey, this`hmacInput
      ensures Digesting() && OnSchedule(epoch + 1) && Pushed(old(objects), o, objects)
    {
      ghost var before := objects;
      HmacStart();
      hmacInput := hmacInput + [Chunked(o)];
      Store(o);
      ObjectPut(before, o, key, epoch, objects);
    }

    /** Writes the DATA, FIELD or ENTRY_ARRAY objects that an entry brings along. */
    method PutAll(contents: seq<bytes>)
      requires Keyed() && Digesting() && OnSchedule(epoch + 1)
      modifies this`objects, this`hmacRunning, this`hmacKey, this`hmacInput
      ensures Digesting() && OnSchedule(epoch + 1) && Padded(old(objects), objects)
    {
      for i := 0 to |contents|
        invariant Digesting() && OnSchedule(epoch + 1) && Padded(old(objects), objects)
      {
        Put(Other(contents[i]));
      }
    }

    /** Fills in an entry's time, boot and number, or says why it cannot be written. */
    method PrepareEntryOptions(opts: EntryOptions, now: uint64) returns (r: Prepared)
      requires Keyed()
      ensures r.Prepared? <==> Admits(Rules(), Gated(), opts, now)
      ensures r.Prepared? ==> r.entry == EntryFor(Rules(), Gated(), opts, now)
    {
      var realtime := opts.realtime;
      if opts.realtime == 0 && !opts.realtimeSet { realtime := now; }
      if opts.monotonic == 0 && !opts.monotonicSet { return Refused(MissingMonotonic); }
      var boot := if opts.boot == 0 then bootId else opts.boot;
      if boot == 0 { return Refused(MissingBoot); }
      var monotonic := opts.monotonic;
      if boot == tailBoot && monotonic <= tailMonotonic {
        if tailMonotonic == MAX_U64 { return Refused(MonotonicOverflow); }
        monotonic := tailMonotonic + 1;
      }
      var seqnum := nextSeqnum;
      if opts.seqnum != 0 {
        if opts.seqnum < nextSeqnum || opts.seqnum == MAX_U64 { return Refused(InvalidSeqnum); }
        seqnum := opts.seqnum;
      }
      if realtime < start { return Refused(BeforeStart); }
      var e := GetEpoch();
      if e > GoalEpoch(realtime, start, interval) { return Refused(EpochPassed); }
      return Prepared(EntryRecord(seqnum, realtime, monotonic, boot));
    }

    ghost function Rules(): Setup {
      Setup(start, interval, bootId)
    }

    ghost function Gated(): Gate
      reads this`epoch, this`nEntries, this`nextSeqnum, this`tailMonotonic, this`tailBoot
    {
      Gate(epoch, nEntries, nextSeqnum, tailMonotonic, tailBoot)
    }

    method EntryAdded(e: EntryRecord, ghost entries: seq<EntryRecord>)
      requires Numbered(entries) && e.realtime > 0 && e.boot > 0
      requires entries == [] ==> e.seqnum > 0
      modifies this`nEntries, this`headSeqnum, this`headRealtime, this`tailSeqnum, this`tailMonotonic, this`tailBoot, this`nextSeqnum
      ensures Numbered(entries + [e])
      ensures nextSeqnum == Successor(e.seqnum) && tailMonotonic == e.monotonic && tailBoot == e.boot
      ensures Head(headSeqnum, headRealtime) == if entries == [] then Head(e.seqnum, e.realtime) else old(Head(headSeqnum, headRealtime))
    {
      nEntries := nEntries + 1;
      if headSeqnum == 0 { headSeqnum := e.seqnum; }
      if headRealtime == 0 { headRealtime := e.realtime; }
      tailSeqnum, tailMonotonic, tailBoot := e.seqnum, e.monotonic, e.boot;
      nextSeqnum := Successor(e.seqnum);
    }

    /** The entry continues the numbering and the clock of the entries before it. */
    ghost predicate Continues(e: EntryRecord, entries: seq<EntryRecord>)
      reads this`tailSeqnum, this`tailMonotonic, this`tailBoot
    {
      && e.realtime > 0 && e.boot > 0
      && if entries == [] then e.seqnum > 0
         else (tailSeqnum < MAX_U64 ==> e.seqnum > tailSeqnum) && (e.boot == tailBoot ==> e.monotonic > tailMonotonic)
    }

    method RecordEntry(e: EntryRecord, ghost before: seq<Object>)
      requires Keyed() && Digesting() && OnSchedule(epoch + 1)
      requires Pushed(before, Entry(e), objects) && Numbered(Entries(before)) && Continues(e, Entries(before))
      requires EntriesPass(before, Head(headSeqnum, headRealtime)) <==> SeqnumsFit(Entries(before))
      modifies this`nEntries, this`headSeqnum, this`headRealtime, this`tailSeqnum, this`tailMonotonic, this`tailBoot, this`nextSeqnum
      ensures Valid() && Entries(objects) == Entries(before) + [e]
      ensures nextSeqnum == Successor(e.seqnum) && tailMonotonic == e.monotonic && tailBoot == e.boot
    {
      ghost var head := Head(headSeqnum, headRealtime);
      EntryAdded(e, Entries(before));
      EntryPublished(before, e, head, Head(headSeqnum, headRealtime), objects);
    }

    /** Writes a prepared entry and records it in the header. */
    method PublishEntry(e: EntryRecord)
      requires Valid() && Window(key, epoch) <= e.realtime < Window(key, epoch) + key.interval
      requires Continues(e, Entries(objects))
      modifies this
      ensures Valid() && epoch == old(epoch) && Entries(objects) == old(Entries(objects)) + [e]
      ensures nextSeqnum == Successor(e.seqnum) && tailMonotonic == e.monotonic && tailBoot == e.boot
    {
      ghost var before := objects;
      Put(Entry(e));
      RecordEntry(e, before);
    }

    ghost predicate SameEntries(entries: seq<EntryRecord>)
      reads this`objects
    {
      Entries(objects) == entries
    }

    method Advance(realtime: uint64)
      requires Valid() && realtime >= start && epoch <= GoalEpoch(realtime, start, interval)
      modifies this`objects, this`hmacRunning, this`hmacKey, this`hmacInput, this`nTags, this`fsprgState, this`epoch
      ensures Valid() && SameEntries(old(Entries(objects)))
      ensures epoch == GoalEpoch(realtime, start, interval)
      ensures Window(key, epoch) <= realtime < Window(key, epoch) + key.interval
    {
      ghost var before := objects;
      MaybeAppendTag(realtime);
      GoalWindow(key, realtime, start, epoch);
      PaddedEntries(before, objects, Head(headSeqnum, headRealtime));
    }

    method PutObjects(contents: seq<bytes>)
      requires Valid()
      modifies this`objects, this`hmacRunning, this`hmacKey, this`hmacInput
      ensures Valid() && SameEntries(old(Entries(objects)))
    {
      ghost var before := objects;
      PutAll(contents);
      PaddedEntries(before, objects, Head(headSeqnum, headRealtime));
    }

    /** Appends one entry: closes the epochs that ended before it, writes the objects it brings
        along, the entry itself and the arrays that index it. The file stays verifiable unless the
        sequence numbers were used up before the call. */
    method Append(count: nat, opts: EntryOptions, now: uint64, data: seq<bytes>, arrays: seq<bytes>) returns (r: Prepared)
      requires Valid()
      modifies this
      ensures Valid()
      ensures r.Prepared? <==> count > 0 && old(Admits(Rules(), Gated(), opts, now))
      ensures r.Refused? ==> unchanged(this)
      ensures r.Prepared? ==> r.entry == old(EntryFor(Rules(), Gated(), opts, now)) && r.entry.realtime >= start
      ensures r.Prepared? ==> Entries(objects) == old(Entries(objects)) + [r.entry]
      ensures r.Prepared? ==> Gated() == GateAfter(Rules(), old(Gated()), r.entry)
      ensures r.Prepared? ==> (SeqnumsFit(Entries(objects)) <==> old(SeqnumsFit(Entries(objects)) && !Exhausted(Gated())))
    {
      if count == 0 { return Refused(EmptyEntry); }
      r := PrepareEntryOptions(opts, now);
      if r.Refused? { return; }
      PreparedContinues(r.entry, Entries(objects), opts, now);
      ExhaustedAppend(Entries(objects), r.entry);
      WriteEntry(r.entry, data, arrays);
    }

    /** Writes a prepared entry in the epoch of its time, between the objects it brings along. */
    method WriteEntry(e: EntryRecord, data: seq<bytes>, arrays: seq<bytes>)
      requires Valid() && Continues(e, Entries(objects)) && e.realtime >= start && epoch <= GoalEpoch(e.realtime, start, interval)
      modifies this
      ensures Valid() && Entries(objects) == old(Entries(objects)) + [e]
      ensures Gated() == GateAfter(Rules(), old(Gated()), e)
    {
      Advance(e.realtime);
      PutObjects(data);
      PublishEntry(e);
      PutObjects(arrays);
    }

    /** A prepared entry continues the numbering and the clock. */
    lemma PreparedContinues(e: EntryRecord, entries: seq<EntryRecord>, opts: EntryOptions, now: uint64)
      requires Numbered(entries) && start > 0 && interval > 0
      requires Admits(Rules(), Gated(), opts, now) && e == EntryFor(Rules(), Gated(), opts, now)
      ensures Continues(e, entries)
    {
    }

    /** One more entry keeps the numbers rising exactly when they were not used up. */
    lemma ExhaustedAppend(entries: seq<EntryRecord>, e: EntryRecord)
      requires Numbered(entries)
      ensures SeqnumsFit(entries + [e]) <==> SeqnumsFit(entries) && !Exhausted(Gated())
    {
      SeqnumsFitAppended(entries, e);
    }

    /** A new sealed file: two hash tables and the first tag. */
    constructor (ghost key: SealKey, mac: Mac, state0: bytes, startUsec: uint64, interval: uint64,
                 bootId: nat, headSeqnum: uint64, fieldTable: bytes, dataTable: bytes)
      requires startUsec >= interval > 0 && bootId > 0
      requires Coherent(key) && key.mac == mac && key.seek(0) == state0
      requires key.interval == interval && key.startEpoch == FirstEpoch(startUsec, interval)
      ensures Valid() && Entries(objects) == [] && this.key == key
      ensures Rules() == Setup(RoundedDown(startUsec, interval), interval, bootId) && Gated() == FirstGate(headSeqnum)
    {
      this.key, this.mac, this.interval, this.bootId := key, mac, interval, bootId;
      start := RoundedDown(startUsec, interval);
      epoch, fsprgState := 0, state0;
      var f, d := Other(fieldTable), Other(dataTable);
      objects, nTags, nEntries := [f, d], 0, 0;
      hmacRunning, hmacKey, hmacInput := true, state0, [HeaderRanges, Chunked(f), Chunked(d)];
      this.headSeqnum, headRealtime, tailSeqnum, tailMonotonic, tailBoot := 0, 0, 0, 0, 0;
      nextSeqnum := if headSeqnum == 0 then 1 else headSeqnum;
      new;
      WriteFirstTag(f, d);
    }

    /** The first tag covers the hash tables. */
    method WriteFirstTag(f: Object, d: Object)
      requires Keyed() && f.Other? && d.Other? && objects == [f, d] && epoch == nTags == 0
      requires hmacRunning && hmacKey == fsprgState && hmacInput == [HeaderRanges, Chunked(f), Chunked(d)]
      requires Numbered([])
      modifies this`objects, this`hmacRunning, this`hmacKey, this`hmacInput, this`nTags
      ensures Valid() && Entries(objects) == []
    {
      TablesOnly(f, d);
      ghost var before := objects;
      ghost var tag := WriteTag();
      FirstTagWritten(before, tag, key, objects);
      NoEntriesPass(objects, Head(headSeqnum, headRealtime));
    }
  }

  /** The interval that a time lies in, counted from the beginning of time. */
  function FirstEpoch(startUsec: uint64, interval: uint64): (epoch: uint64)
    requires startUsec >= interval > 0
    ensures epoch > 0
  {
    Quotient(startUsec, interval);
    startUsec / interval
  }

  /** The start of that interval. */
  function RoundedDown(startUsec: uint64, interval: uint64): (start: uint64)
    requires startUsec >= interval > 0
    ensures 0 < start <= startUsec
  {
    Quotient(startUsec, interval);
    Multiple(FirstEpoch(startUsec, interval), interval);
    FirstEpoch(startUsec, interval) * interval
  }

  lemma TablesOnly(f: Object, d: Object)
    requires f.Other? && d.Other?
    ensures Tags([f, d]) == [] && Entries([f, d]) == [] && Entries(SinceTag([f, d])) == []
    ensures Covered([f, d]) == [HeaderRanges, Chunked(f), Chunked(d)]
  {
    assert [f, d] == [f] + [d] && [f] == [] + [f];
    Appended([], f);
    Appended([f], d);
  }

  lemma FirstTagWritten(before: seq<Object>, tag: TagRecord, key: SealKey, after: seq<Object>)
    requires Pushed(before, Tag(tag), after) && tag.epoch == 0 && tag.number == 1 && TagSigned(before, tag, key)
    requires Tags(before) == [] && Entries(before) == [] && Entries(SinceTag(before)) == []
    requires forall o <- before :: o.Other?
    ensures SealedSoFar(after, key, 0) && |Tags(after)| == 1 && Entries(after) == []
  {
    assert after == before + [Tag(tag)];
    Appended(before, Tag(tag));
    FirstSealPasses(before, tag, key);
  }

  lemma FirstSealPasses(before: seq<Object>, tag: TagRecord, key: SealKey)
    requires tag.epoch == 0 && tag.number == 1 && TagSigned(before, tag, key)
    requires Tags(before) == [] && Entries(before) == [] && Entries(SinceTag(before)) == [] && forall o <- before :: o.Other?
    ensures SealsPass(before + [Tag(tag)], key, Consecutive) <==> Window(key, 0) + key.interval <= MAX_U64
  {
    FirstTagPasses(before, tag, key);
    SealsPassAppended(before, Tag(tag), key, Consecutive);
  }

  lemma EndFits(key: SealKey, epoch: nat, goal: nat, realtime: uint64)
    requires epoch < goal && Window(key, goal) <= realtime
    ensures Window(key, epoch) + key.interval <= MAX_U64
  {
    WindowStep(key, epoch);
    WindowGrows(key, epoch + 1, goal);
  }

  lemma EpochBelow(key: SealKey, epoch: nat)
    requires key.interval > 0 && key.startEpoch > 0 && Window(key, epoch) + key.interval <= MAX_U64
    ensures epoch + 1 < MAX_U64
  {
    Multiple(key.startEpoch + epoch, key.interval);
  }
}
