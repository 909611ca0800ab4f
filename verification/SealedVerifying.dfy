/** Verification of a sealed journal in one pass over its objects (go/journal/verify.go). */
module SealedVerifying {
  import opened JournalGraph
  import opened NumberTheory
  import opened SealedSpec

  datatype TagRange = TagRange(begin: uint64, end: uint64) | Refused

  /** The time window of an epoch, or a refusal exactly when its end does not fit 64 bits. */
  function TagRealtimeRange(startEpoch: uint64, epoch: uint64, interval: uint64): (r: TagRange)
    requires interval > 0
    ensures r.TagRange? <==> (startEpoch + epoch) * interval + interval <= MAX_U64
    ensures r.TagRange? ==> r.begin == (startEpoch + epoch) * interval && r.end == r.begin + interval
  {
    QuotientBounds(startEpoch + epoch, interval);
    if startEpoch > MAX_U64 - epoch then Refused
    else if startEpoch + epoch > MAX_U64 / interval then Refused
    else
      var begin := (startEpoch + epoch) * interval;
      if begin > MAX_U64 - interval then Refused
      else TagRange(begin, begin + interval)
  }

  lemma QuotientBounds(a: nat, interval: nat)
    requires interval > 0
    ensures a * interval >= a
    ensures a > MAX_U64 / interval <==> a * interval > MAX_U64
  {
    var k := MAX_U64 / interval;
    assert k * interval <= MAX_U64 < (k + 1) * interval;
    if a > k { MulMonotone(k + 1, a, interval); } else { MulMonotone(a, k, interval); }
    MulMonotone(1, interval, a);
  }

  /** A running maximum decides every upper bound, a running minimum every lower bound. */
  ghost predicate DecidesBelow(max: uint64, entries: seq<EntryRecord>)
  {
    forall end: nat :: end > 0 ==> (AllBelow(entries, end) <==> max < end)
  }

  ghost predicate DecidesFrom(min: uint64, entries: seq<EntryRecord>)
  {
    forall begin: nat :: begin <= MAX_U64 ==> (AllFrom(entries, begin) <==> begin <= min)
  }

  lemma BelowAppended(max: uint64, entries: seq<EntryRecord>, e: EntryRecord)
    requires DecidesBelow(max, entries)
    ensures DecidesBelow(if e.realtime > max then e.realtime else max, entries + [e])
  {
    forall end: nat | end > 0
      ensures AllBelow(entries + [e], end) <==> AllBelow(entries, end) && e.realtime < end
    {
      assert (entries + [e])[|entries|] == e;
      assert forall i :: 0 <= i < |entries| ==> (entries + [e])[i] == entries[i];
    }
  }

  lemma FromAppended(min: uint64, entries: seq<EntryRecord>, e: EntryRecord)
    requires DecidesFrom(min, entries)
    ensures DecidesFrom(if e.realtime < min then e.realtime else min, entries + [e])
  {
    forall begin: nat | begin <= MAX_U64
      ensures AllFrom(entries + [e], begin) <==> AllFrom(entries, begin) && begin <= e.realtime
    {
      assert (entries + [e])[|entries|] == e;
      assert forall i :: 0 <= i < |entries| ==> (entries + [e])[i] == entries[i];
    }
  }

  class SealedVerifier {
    const source: seq<Object>
    const header: FileHeader
    const key: SealKey

    var nObjects: nat
    var nEntries: nat
    var nTags: nat
    var lastTagEnd: nat
    var lastEpoch: uint64
    var lastTagRealtime: uint64
    var entrySeqnum: uint64
    var entrySeqnumSet: bool
    var entryMonotonic: uint64
    var entryMonotonicSet: bool
    var entryBoot: nat
    var entryRealtime: uint64
    var entryRealtimeSet: bool
    var maxEntryRealtime: uint64
    var minEntryRealtime: uint64

    constructor (source: seq<Object>, header: FileHeader, key: SealKey)
      ensures this.source == source && this.header == header && this.key == key
      ensures Knows([])
    {
      this.source, this.header, this.key := source, header, key;
      nObjects, nEntries, nTags, lastTagEnd, lastEpoch, lastTagRealtime := 0, 0, 0, 0, 0, 0;
      entrySeqnum, entrySeqnumSet, entryMonotonic, entryMonotonicSet, entryBoot := 0, false, 0, false, 0;
      entryRealtime, entryRealtimeSet, maxEntryRealtime, minEntryRealtime := 0, false, 0, 0xFFFF_FFFF_FFFF_FFFF;
    }

    ghost predicate KnowsTags(seen: nat, tags: seq<TagRecord>, since: nat)
      reads this`nObjects, this`nTags, this`lastEpoch, this`lastTagRealtime, this`lastTagEnd
    {
      && nObjects == seen && nTags == |tags| && (nTags == 0 ==> lastEpoch == 0)
      && (nTags > 0 ==>
            && lastEpoch == tags[nTags-1].epoch < MAX_U64
            && lastTagRealtime == Window(key, lastEpoch)
            && lastTagEnd == seen - since)
    }

    ghost predicate KnowsEntries(entries: seq<EntryRecord>)
      reads this`nEntries, this`entrySeqnum, this`entrySeqnumSet, this`entryMonotonic, this`entryMonotonicSet
      reads this`entryBoot, this`entryRealtime, this`entryRealtimeSet
    {
      && nEntries == |entries|
      && (entrySeqnumSet <==> nEntries > 0)
      && (entryMonotonicSet <==> nEntries > 0)
      && (entryRealtimeSet <==> nEntries > 0)
      && (nEntries > 0 ==> entries[nEntries-1] == EntryRecord(entrySeqnum, entryRealtime, entryMonotonic, entryBoot))
    }

    ghost predicate KnowsTimes(entries: seq<EntryRecord>, recent: seq<EntryRecord>)
      reads this`maxEntryRealtime, this`minEntryRealtime
    {
      DecidesBelow(maxEntryRealtime, entries) && DecidesFrom(minEntryRealtime, recent)
    }

    /** The counters summarize the objects seen so far. */
    ghost predicate Knows(seen: seq<Object>)
      reads this
    {
      && KnowsTags(|seen|, Tags(seen), |SinceTag(seen)|)
      && KnowsEntries(Entries(seen))
      && KnowsTimes(Entries(seen), Entries(SinceTag(seen)))
    }

    method CheckEntry(e: EntryRecord, ghost seen: seq<Object>) returns (ok: bool)
      requires Knows(seen)
      ensures ok <==> SealCheck(seen, Entry(e), key, header.rule) && EntryCheck(seen, Entry(e), header.head)
    {
      if nTags == 0 { return false; }
      if entryRealtimeSet && e.realtime < lastTagRealtime { return false; }
      if !entrySeqnumSet && e.seqnum != header.head.seqnum { return false; }
      if entrySeqnumSet && entrySeqnum >= e.seqnum { return false; }
      if entryMonotonicSet && e.boot == entryBoot && entryMonotonic > e.monotonic { return false; }
      if !entryRealtimeSet && e.realtime != header.head.realtime { return false; }
      return true;
    }

    method VerifyEntryObject(e: EntryRecord, ghost seen: seq<Object>) returns (ok: bool)
      requires Knows(seen)
      modifies this
      ensures ok <==> SealCheck(seen, Entry(e), key, header.rule) && EntryCheck(seen, Entry(e), header.head)
      ensures ok ==> Knows(seen + [Entry(e)])
    {
      ok := CheckEntry(e, seen);
      if ok {
        RecordEntry(e, Tags(seen), |SinceTag(seen)|, Entries(seen), Entries(SinceTag(seen)));
        KnowsAppended(seen, Entry(e));
      }
    }

    lemma KnowsAppended(seen: seq<Object>, o: Object)
      requires KnowsTags(|seen| + 1, WithTag(Tags(seen), o), if o.Tag? then 0 else |SinceTag(seen)| + 1)
      requires KnowsEntries(WithEntry(Entries(seen), o))
      requires KnowsTimes(WithEntry(Entries(seen), o), if o.Tag? then [] else WithEntry(Entries(SinceTag(seen)), o))
      ensures Knows(seen + [o])
    {
      PartsAppended(seen, o);
    }

    method RecordEntry(e: EntryRecord, ghost tags: seq<TagRecord>, ghost since: nat, ghost entries: seq<EntryRecord>, ghost recent: seq<EntryRecord>)
      requires KnowsTags(nObjects, tags, since) && KnowsEntries(entries) && KnowsTimes(entries, recent)
      modifies this
      ensures KnowsTags(old(nObjects) + 1, tags, since + 1)
      ensures KnowsEntries(entries + [e])
      ensures KnowsTimes(entries + [e], recent + [e])
    {
      RecordEntryNumbers(e, entries);
      RecordEntryRealtime(e, entries, recent);
      nObjects := nObjects + 1;
    }

    method RecordEntryNumbers(e: EntryRecord, ghost entries: seq<EntryRecord>)
      requires KnowsEntries(entries)
      modifies this`entrySeqnum, this`entrySeqnumSet, this`entryMonotonic, this`entryBoot, this`entryMonotonicSet
      modifies this`entryRealtime, this`entryRealtimeSet, this`nEntries
      ensures KnowsEntries(entries + [e])
    {
      entrySeqnum, entrySeqnumSet := e.seqnum, true;
      entryMonotonic, entryBoot, entryMonotonicSet := e.monotonic, e.boot, true;
      entryRealtime, entryRealtimeSet := e.realtime, true;
      nEntries := nEntries + 1;
    }

    method RecordEntryRealtime(e: EntryRecord, ghost entries: seq<EntryRecord>, ghost recent: seq<EntryRecord>)
      requires KnowsTimes(entries, recent)
      modifies this`maxEntryRealtime, this`minEntryRealtime
      ensures KnowsTimes(entries + [e], recent + [e])
    {
      BelowAppended(maxEntryRealtime, entries, e);
      FromAppended(minEntryRealtime, recent, e);
      if e.realtime > maxEntryRealtime { maxEntryRealtime := e.realtime; }
      if e.realtime < minEntryRealtime { minEntryRealtime := e.realtime; }
    }

    method VerifyTagSequence(tag: TagRecord, ghost seen: seq<Object>) returns (ok: bool)
      requires Knows(seen)
      ensures ok <==> TagInSequence(seen, tag, header.rule)
    {
      if tag.number != nTags + 1 { return false; }
      if header.rule.Consecutive? {
        ok := nTags == 0 || (nTags == 1 && tag.epoch == lastEpoch) || tag.epoch == (lastEpoch + 1) % (MAX_U64 + 1);
      } else {
        ok := tag.epoch >= lastEpoch;
      }
    }

    method VerifyTagWindow(tag: TagRecord, ghost seen: seq<Object>) returns (r: TagRange)
      requires key.interval > 0 && Knows(seen)
      ensures r.TagRange? <==> TagInWindow(seen, tag, key)
      ensures r.TagRange? ==> r.begin == Window(key, tag.epoch) && tag.epoch < MAX_U64
    {
      r := TagRealtimeRange(key.startEpoch, tag.epoch, key.interval);
      if r.Refused? { return; }
      QuotientBounds(key.startEpoch + tag.epoch, key.interval);
      LastBelow(seen, r.end);
      if entryRealtimeSet && entryRealtime >= r.end { return Refused; }
      if maxEntryRealtime >= r.end { return Refused; }
      if minEntryRealtime < r.begin { return Refused; }
    }

    lemma LastBelow(seen: seq<Object>, end: nat)
      requires Knows(seen)
      ensures nEntries > 0 && AllBelow(Entries(seen), end) ==> entryRealtime < end
    {
    }

    /** The pieces that the objects `first` up to `at` contribute to a digest. */
    method CollectChunks(first: nat, at: nat) returns (chunks: seq<Chunk>)
      requires first <= at < |source|
      ensures chunks == Chunks(source[first..at+1])
    {
      chunks := [];
      var q := first;
      while q <= at
        invariant first <= q <= at + 1
        invariant chunks == Chunks(source[first..q])
      {
        ChunksAppended(source, first, q);
        chunks := chunks + [Chunked(source[q])];
        q := q + 1;
      }
    }

    /** Recomputes a tag's digest over the objects from the last tag up to the tag itself. */
    method VerifyTagDigest(tag: TagRecord, at: nat) returns (ok: bool)
      requires at < |source| && source[at] == Tag(tag) && Knows(source[..at])
      ensures ok <==> TagSigned(source[..at], tag, key)
    {
      var first := if nTags == 0 then 0 else lastTagEnd;
      UntaggedFrom(source[..at]);
      var chunks := CollectChunks(first, at);
      CoveredToTag(source, first, at);
      ok := tag.digest == key.mac(key.seek(tag.epoch), (if nTags == 0 then [HeaderRanges] else []) + chunks);
    }

    method RecordTag(tag: TagRecord, begin: uint64, ghost tags: seq<TagRecord>, ghost since: nat, ghost entries: seq<EntryRecord>, ghost recent: seq<EntryRecord>)
      requires KnowsTags(nObjects, tags, since) && KnowsEntries(entries) && KnowsTimes(entries, recent)
      requires begin == Window(key, tag.epoch) && tag.epoch < MAX_U64
      modifies this
      ensures KnowsTags(old(nObjects) + 1, tags + [tag], 0)
      ensures KnowsEntries(entries)
      ensures KnowsTimes(entries, [])
    {
      nTags := nTags + 1;
      nObjects := nObjects + 1;
      lastTagEnd := nObjects;
      lastEpoch := tag.epoch;
      lastTagRealtime := begin;
      minEntryRealtime := 0xFFFF_FFFF_FFFF_FFFF;
    }

    method CheckTag(at: nat) returns (range: TagRange)
      requires at < |source| && source[at].Tag? && key.interval > 0 && Knows(source[..at])
      ensures range.TagRange? <==> SealCheck(source[..at], source[at], key, header.rule)
      ensures range.TagRange? ==> range.begin == Window(key, source[at].tag.epoch) && source[at].tag.epoch < MAX_U64
    {
      var ok := VerifyTagSequence(source[at].tag, source[..at]);
      if !ok { return Refused; }
      range := VerifyTagWindow(source[at].tag, source[..at]);
      if range.Refused? { return; }
      ok := VerifyTagDigest(source[at].tag, at);
      if !ok { return Refused; }
    }

    method VerifyTagObject(at: nat) returns (ok: bool)
      requires at < |source| && source[at].Tag? && key.interval > 0 && Knows(source[..at])
      modifies this
      ensures ok <==> SealCheck(source[..at], source[at], key, header.rule)
      ensures ok ==> Knows(source[..at] + [source[at]])
    {
      var range := CheckTag(at);
      ok := range.TagRange?;
      if ok {
        ghost var seen := source[..at];
        RecordTag(source[at].tag, range.begin, Tags(seen), |SinceTag(seen)|, Entries(seen), Entries(SinceTag(seen)));
        KnowsAppended(seen, source[at]);
      }
    }

    ghost predicate ObjectPasses(at: nat)
      requires at < |source|
    {
      SealedAt(source, at, key, header.rule) && NumberedAt(source, at, header.head)
    }

    ghost predicate PassesUpTo(at: nat)
      requires at <= |source|
    {
      forall i {:trigger ObjectPasses(i)} :: 0 <= i < at ==> ObjectPasses(i)
    }

    method VerifyObject(at: nat) returns (ok: bool)
      requires at < |source| && key.interval > 0 && Knows(source[..at])
      modifies this
      ensures ok <==> ObjectPasses(at)
      ensures ok ==> Knows(source[..at] + [source[at]])
    {
      match source[at]
      case Other(_) =>
        nObjects := nObjects + 1;
        KnowsAppended(source[..at], source[at]);
        ok := true;
      case Entry(e) =>
        ok := VerifyEntryObject(e, source[..at]);
      case Tag(_) =>
        ok := VerifyTagObject(at);
    }

    lemma PassesAll()
      ensures PassesUpTo(|source|) <==> SealsPass(source, key, header.rule) && EntriesPass(source, header.head)
    {
      if PassesUpTo(|source|) {
        forall i | 0 <= i < |source| ensures SealedAt(source, i, key, header.rule) && NumberedAt(source, i, header.head) {
          assert ObjectPasses(i);
        }
      }
    }

    lemma KnowsNext(at: nat)
      requires at < |source| && Knows(source[..at] + [source[at]])
      ensures Knows(source[..at+1])
    {
      assert source[..at+1] == source[..at] + [source[at]];
    }

    method VerifyFinalCounts() returns (ok: bool)
      requires Knows(source)
      ensures ok <==> CountsPass(source, header)
    {
      ok := nObjects == header.nObjects && nEntries == header.nEntries && nTags == header.nTags;
    }

    lemma PassesNext(at: nat)
      requires at < |source| && PassesUpTo(at)
      ensures ObjectPasses(at) ==> PassesUpTo(at + 1)
      ensures !ObjectPasses(at) ==> !PassesUpTo(|source|)
    {
    }

    method VerifyObjects() returns (ok: bool)
      requires key.interval > 0 && Knows([])
      modifies this
      ensures ok <==> PassesUpTo(|source|)
      ensures ok ==> Knows(source)
    {
      var at := 0;
      assert source[..0] == [];
      while at < |source|
        invariant at <= |source| && Knows(source[..at])
        invariant PassesUpTo(at)
      {
        PassesNext(at);
        ok := VerifyObject(at);
        if !ok { return; }
        KnowsNext(at);
        at := at + 1;
      }
      assert source[..at] == source;
      ok := true;
    }

    /** One pass accepts exactly the files whose every object passes every check. */
    method Run() returns (ok: bool)
      requires key.interval > 0 && Knows([])
      modifies this
      ensures ok <==> Accepted(source, header, key)
    {
      PassesAll();
      ok := VerifyObjects();
      if ok { ok := VerifyFinalCounts(); }
    }
  }

  lemma UntaggedFrom(seen: seq<Object>)
    ensures Tags(seen) == [] ==> SinceTag(seen) == seen
  {
  }

  lemma ChunksAppended(source: seq<Object>, first: nat, q: nat)
    requires first <= q < |source|
    ensures Chunks(source[first..q+1]) == Chunks(source[first..q]) + [Chunked(source[q])]
  {
    assert source[first..q+1] == source[first..q] + [source[q]];
    Appended(source[first..q], source[q]);
  }

  lemma CoveredToTag(source: seq<Object>, first: nat, at: nat)
    requires at < |source| && first == at - |SinceTag(source[..at])|
    ensures Covered(source[..at]) + [Chunked(source[at])]
         == (if Tags(source[..at]) == [] then [HeaderRanges] else []) + Chunks(source[first..at+1])
  {
    var seen := source[..at];
    SinceTagSuffix(seen);
    assert SinceTag(seen) == seen[first..] == source[first..at];
    ChunksAppended(source, first, at);
  }
}
