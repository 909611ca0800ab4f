/** What a sealed journal must look like, object by object (go/journal/verify.go). */
module SealedSpec {
  import opened JournalGraph

  /** A boot identifier of 0 is the zero UUID. */
  datatype EntryRecord = EntryRecord(seqnum: uint64, realtime: uint64, monotonic: uint64, boot: nat)

  datatype TagRecord = TagRecord(number: uint64, epoch: uint64, digest: bytes)

  /** An object of the arena. `Other` stands for DATA, FIELD, hash table and ENTRY_ARRAY objects,
      of which only the immutable bytes matter here. */
  datatype Object = Other(content: bytes) | Entry(entry: EntryRecord) | Tag(tag: TagRecord)

  /** One piece of what a digest covers; a tag's own digest is never part of it. */
  datatype Chunk = HeaderRanges | Covers(object: Object)

  /** The keyed digest of a tag: a function of the generator state and the pieces covered. */
  type Mac = (bytes, seq<Chunk>) -> bytes

  /** Everything a verification key gives access to: `seek` yields the generator state of any epoch. */
  datatype SealKey = SealKey(mac: Mac, seek: uint64 -> bytes, startEpoch: uint64, interval: uint64)

  /** The header's record of the first entry. */
  datatype Head = Head(seqnum: uint64, realtime: uint64)

  /** How the epochs of tags may go on: one by one, as every writer here promises in the header,
      or merely without falling back. */
  datatype EpochRule = Consecutive | NotFalling

  datatype FileHeader = FileHeader(head: Head, rule: EpochRule, nObjects: nat, nEntries: nat, nTags: nat)

  // ----- parts of an object sequence

  ghost function Tags(objects: seq<Object>): seq<TagRecord> {
    if objects == [] then [] else WithTag(Tags(objects[..|objects|-1]), objects[|objects|-1])
  }

  ghost function WithTag(tags: seq<TagRecord>, o: Object): seq<TagRecord> {
    if o.Tag? then tags + [o.tag] else tags
  }

  ghost function Entries(objects: seq<Object>): seq<EntryRecord> {
    if objects == [] then [] else WithEntry(Entries(objects[..|objects|-1]), objects[|objects|-1])
  }

  ghost function WithEntry(entries: seq<EntryRecord>, o: Object): seq<EntryRecord> {
    if o.Entry? then entries + [o.entry] else entries
  }

  /** The objects written since the last tag. */
  ghost function SinceTag(objects: seq<Object>): (since: seq<Object>)
    ensures |since| <= |objects|
  {
    if objects == [] || objects[|objects|-1].Tag? then []
    else SinceTag(objects[..|objects|-1]) + [objects[|objects|-1]]
  }

  lemma {:induction false} SinceTagSuffix(objects: seq<Object>)
    ensures SinceTag(objects) == objects[|objects| - |SinceTag(objects)|..]
    decreases |objects|
  {
    if objects != [] && !objects[|objects|-1].Tag? {
      SinceTagSuffix(objects[..|objects|-1]);
    }
  }

  function Chunks(objects: seq<Object>): (chunks: seq<Chunk>)
    ensures |chunks| == |objects|
  {
    if objects == [] then []
    else Chunks(objects[..|objects|-1]) + [Chunked(objects[|objects|-1])]
  }

  function Chunked(o: Object): Chunk {
    Covers(if o.Tag? then Tag(o.tag.(digest := [])) else o)
  }

  /** What the next tag's digest covers so far. */
  ghost function Covered(objects: seq<Object>): seq<Chunk> {
    (if Tags(objects) == [] then [HeaderRanges] else []) + Chunks(SinceTag(objects))
  }

  /** `after` is `before` with one more object. */
  ghost predicate Pushed(before: seq<Object>, o: Object, after: seq<Object>) {
    |after| > 0 && after[..|after|-1] == before && after[|after|-1] == o
  }

  lemma Appended(objects: seq<Object>, o: Object)
    ensures var more := objects + [o];
            && Tags(more) == WithTag(Tags(objects), o)
            && Entries(more) == WithEntry(Entries(objects), o)
            && SinceTag(more) == (if o.Tag? then [] else SinceTag(objects) + [o])
            && Chunks(more) == Chunks(objects) + [Chunked(o)]
  {
    assert (objects + [o])[..|objects|] == objects;
  }

  lemma PartsAppended(seen: seq<Object>, o: Object)
    ensures var more := seen + [o];
            && Tags(more) == WithTag(Tags(seen), o)
            && Entries(more) == WithEntry(Entries(seen), o)
            && |SinceTag(more)| == (if o.Tag? then 0 else |SinceTag(seen)| + 1)
            && Entries(SinceTag(more)) == if o.Tag? then [] else WithEntry(Entries(SinceTag(seen)), o)
  {
    Appended(seen, o);
    Appended(SinceTag(seen), o);
  }

  lemma CoveredAfterTag(objects: seq<Object>, o: Object)
    requires o.Tag?
    ensures Covered(objects + [o]) == []
  {
    Appended(objects, o);
  }

  lemma CoveredAppended(objects: seq<Object>, o: Object)
    requires !o.Tag?
    ensures Covered(objects + [o]) == Covered(objects) + [Chunked(o)]
  {
    var since := SinceTag(objects);
    assert Tags(objects + [o]) == Tags(objects) && SinceTag(objects + [o]) == since + [o] by { Appended(objects, o); }
    assert Chunks(since + [o]) == Chunks(since) + [Chunked(o)] by { Appended(since, o); }
  }

  /** The object but for the digest of a tag. */
  ghost predicate SameButDigest(a: Object, b: Object) {
    match a
    case Other(content) => b == Other(content)
    case Entry(e) => b == Entry(e)
    case Tag(tag) => b.Tag? && b.tag.number == tag.number && b.tag.epoch == tag.epoch
  }

  /** What a digest covers determines the objects, but for the digests of tags. */
  lemma {:induction false} ChunksDetermine(a: seq<Object>, b: seq<Object>)
    requires Chunks(a) == Chunks(b)
    ensures |a| == |b| && forall i :: 0 <= i < |a| ==> SameButDigest(a[i], b[i])
    decreases |a|
  {
    if a != [] {
      var n := |a| - 1;
      assert Chunks(a)[n] == Chunked(a[n]) && Chunks(b)[n] == Chunked(b[n]);
      assert Chunks(a)[..n] == Chunks(a[..n]) && Chunks(b)[..n] == Chunks(b[..n]);
      ChunksDetermine(a[..n], b[..n]);
      forall i | 0 <= i < |a| ensures SameButDigest(a[i], b[i]) {
        if i < n { assert a[i] == a[..n][i] && b[i] == b[..n][i]; }
      }
    }
  }

  // ----- time windows

  function Window(key: SealKey, epoch: nat): nat {
    (key.startEpoch + epoch) * key.interval
  }

  ghost predicate AllBelow(entries: seq<EntryRecord>, end: nat)
  {
    forall i :: 0 <= i < |entries| ==> entries[i].realtime < end
  }

  ghost predicate AllFrom(entries: seq<EntryRecord>, begin: nat)
  {
    forall i :: 0 <= i < |entries| ==> begin <= entries[i].realtime
  }

  // ----- the checks

  /** Tags count from one. Consecutive epochs rise one by one after the first two, which may share
      an epoch; otherwise they must not fall. */
  ghost predicate TagInSequence(before: seq<Object>, tag: TagRecord, rule: EpochRule)
  {
    var tags := Tags(before);
    && tag.number == |tags| + 1
    && (|tags| > 0 ==>
          match rule
          case Consecutive => tag.epoch == tags[|tags|-1].epoch + 1 || (|tags| == 1 && tag.epoch == tags[0].epoch)
          case NotFalling => tag.epoch >= tags[|tags|-1].epoch)
  }

  /** Every entry before a tag is older than the end of the tag's epoch, every entry that the tag
      seals is not older than its start, and these times fit 64 bits. */
  ghost predicate TagInWindow(before: seq<Object>, tag: TagRecord, key: SealKey)
  {
    var begin, end := Window(key, tag.epoch), Window(key, tag.epoch) + key.interval;
    end <= MAX_U64 && AllBelow(Entries(before), end) && AllFrom(Entries(SinceTag(before)), begin)
  }

  ghost predicate TagSigned(before: seq<Object>, tag: TagRecord, key: SealKey)
  {
    tag.digest == key.mac(key.seek(tag.epoch), Covered(before) + [Chunked(Tag(tag))])
  }

  /** An entry follows some tag, and unless it is the first entry it is not older than that tag. */
  ghost predicate EntryInWindow(before: seq<Object>, e: EntryRecord, key: SealKey)
  {
    var tags := Tags(before);
    && |tags| > 0
    && (Entries(before) != [] ==> e.realtime >= Window(key, tags[|tags|-1].epoch))
  }

  ghost predicate SealCheck(before: seq<Object>, o: Object, key: SealKey, rule: EpochRule)
  {
    match o
    case Other(_) => true
    case Entry(e) => EntryInWindow(before, e, key)
    case Tag(tag) => TagInSequence(before, tag, rule) && TagInWindow(before, tag, key) && TagSigned(before, tag, key)
  }

  /** Sequence numbers rise, the monotonic clock of a boot never falls, and the header names the
      first entry. */
  ghost predicate EntryCheck(before: seq<Object>, o: Object, head: Head) {
    o.Entry? ==>
      var e, entries := o.entry, Entries(before);
      if entries == [] then e.seqnum == head.seqnum && e.realtime == head.realtime
      else
        var last := entries[|entries|-1];
        last.seqnum < e.seqnum && (e.boot == last.boot ==> last.monotonic <= e.monotonic)
  }

  ghost predicate SealedAt(objects: seq<Object>, i: nat, key: SealKey, rule: EpochRule)
    requires i < |objects|
  {
    SealCheck(objects[..i], objects[i], key, rule)
  }

  ghost predicate NumberedAt(objects: seq<Object>, i: nat, head: Head)
    requires i < |objects|
  {
    EntryCheck(objects[..i], objects[i], head)
  }

  ghost predicate SealsPass(objects: seq<Object>, key: SealKey, rule: EpochRule) {
    forall i {:trigger SealedAt(objects, i, key, rule)} :: 0 <= i < |objects| ==> SealedAt(objects, i, key, rule)
  }

  ghost predicate EntriesPass(objects: seq<Object>, head: Head) {
    forall i {:trigger NumberedAt(objects, i, head)} :: 0 <= i < |objects| ==> NumberedAt(objects, i, head)
  }

  ghost predicate CountsPass(objects: seq<Object>, header: FileHeader) {
    header.nObjects == |objects| && header.nEntries == |Entries(objects)| && header.nTags == |Tags(objects)|
  }

  /** What verification with the key decides. */
  ghost predicate Accepted(objects: seq<Object>, header: FileHeader, key: SealKey)
  {
    SealsPass(objects, key, header.rule) && EntriesPass(objects, header.head) && CountsPass(objects, header)
  }

  lemma SealsPassAppended(objects: seq<Object>, o: Object, key: SealKey, rule: EpochRule)
    ensures SealsPass(objects + [o], key, rule) <==> SealsPass(objects, key, rule) && SealCheck(objects, o, key, rule)
  {
    var more, n := objects + [o], |objects|;
    forall i | 0 <= i < n ensures SealedAt(more, i, key, rule) <==> SealedAt(objects, i, key, rule) {
      assert more[..i] == objects[..i];
    }
    assert SealedAt(more, n, key, rule) <==> SealCheck(objects, o, key, rule) by { assert more[..n] == objects; }
  }

  lemma EntriesPassAppended(objects: seq<Object>, o: Object, head: Head)
    ensures EntriesPass(objects + [o], head) <==> EntriesPass(objects, head) && EntryCheck(objects, o, head)
  {
    var more, n := objects + [o], |objects|;
    forall i | 0 <= i < n ensures NumberedAt(more, i, head) <==> NumberedAt(objects, i, head) {
      assert more[..i] == objects[..i];
    }
    assert NumberedAt(more, n, head) <==> EntryCheck(objects, o, head) by { assert more[..n] == objects; }
  }

  /** A file that keeps the strict promise about epochs also passes the lax check. */
  lemma ConsecutiveNeverFalls(objects: seq<Object>, key: SealKey)
    requires SealsPass(objects, key, Consecutive)
    ensures SealsPass(objects, key, NotFalling)
  {
    forall i | 0 <= i < |objects| ensures SealedAt(objects, i, key, NotFalling) {
      assert SealedAt(objects, i, key, Consecutive);
      NextNeverFalls(objects[..i], objects[i], key);
    }
  }

  lemma NextNeverFalls(before: seq<Object>, o: Object, key: SealKey)
    requires SealCheck(before, o, key, Consecutive)
    ensures SealCheck(before, o, key, NotFalling)
  {
  }
}
