/** Opening a snapshot of a strictly indexed file at rest: the captured bounds and FIELD heads
    (go/journal/indexed_snapshot_capture.go, go/journal/indexed_snapshot.go:70-124), and visits
    while a writer goes on. */
module SnapshotCapture {
  import opened JournalGraph
  import opened EntryArrays
  import opened StrictSpec
  import opened HashIndex
  import opened SnapshotGrowth
  import opened Snapshot
  import opened SnapshotWrites
  import X = ExplorerIndex
  import V = VerifyIndex

  // ----- what strict verification gives a snapshot

  /** The object at `tail` is the last one of the file. */
  ghost predicate LastObject(j: Journal, tail: uint64) {
    && (forall d :: d in j.data ==> d <= tail) && (forall x :: x in j.arrays ==> x <= tail)
    && (forall e :: e in j.entries ==> e <= tail) && (forall f :: f in j.fields ==> f <= tail)
  }

  /** Every link of a chain that ends where it should leads forward. */
  lemma {:induction false} ChainLinks(arrays: Arrays, head: uint64, total: nat, x: uint64)
    requires Complete(arrays, head, total) && total > 0 && Ascending(ChainArrays(arrays, head, total))
    requires Locate(arrays, head, total).at in arrays && arrays[Locate(arrays, head, total).at].next == 0
    requires x in ChainArrays(arrays, head, total)
    ensures x in arrays && (arrays[x].next == 0 || arrays[x].next > x)
    decreases total
  {
    var n := |arrays[head].items|;
    if total > n {
      var next, blocks := arrays[head].next, ChainArrays(arrays, head, total);
      var rest := ChainArrays(arrays, next, total - n);
      assert blocks == [head] + rest && blocks[1..] == rest;
      LocateInBounds(arrays, next, total - n);
      AscendingTail(blocks);
      if x == head {
        assert rest[0] == next && blocks[0] < blocks[1];
      } else {
        ChainLinks(arrays, next, total - n, x);
      }
    }
  }

  lemma StrictArraysSound(j: Journal)
    requires Parsed(j) && StrictPostings(j)
    ensures ArraysSound(j.arrays)
  {
    ListedThenMatch(j);
    forall x | x in j.arrays ensures j.arrays[x].items != [] && (j.arrays[x].next == 0 || j.arrays[x].next > x) {
      var o :| IsOwner(j, o) && x in Opened(j, o, Total(j, o));
      assert Shaped(j, o);
      ChainLinks(j.arrays, Head(j, o), Total(j, o), x);
    }
  }

  lemma StrictPublished(j: Journal)
    requires Parsed(j) && StrictPostings(j)
    ensures Published(j)
  {
    StrictArraysSound(j);
    forall d | d in j.data ensures HealthyPostings(PostingList(j, d), j.data[d].nEntries) {
      assert DataListed(j, d);
      PostingListLength(j, d);
      assert !Contains(j, 0, d);
    }
  }

  /** The newest entry. */
  ghost function LastEntry(j: Journal): uint64 {
    if GlobalList(j) == [] then 0 else GlobalList(j)[|GlobalList(j)|-1]
  }

  lemma EntriesUpToLast(j: Journal)
    requires GlobalListed(j)
    ensures forall e :: e in j.entries ==> e <= LastEntry(j)
    ensures LastEntry(j) == 0 || LastEntry(j) in j.entries
  {
    var list := GlobalList(j);
    forall e | e in j.entries ensures e <= LastEntry(j) {
      assert e in Elements(list);
    }
    if list != [] { assert list[|list|-1] in Elements(list); }
  }

  lemma AllWithin(j: Journal)
    requires GlobalListed(j) && AllDataListed(j)
    ensures forall d :: d in j.data ==> j.data[d].nEntries > 0 && Within(PostingList(j, d), LastEntry(j), j.entries.Keys)
  {
    EntriesUpToLast(j);
    forall d | d in j.data ensures j.data[d].nEntries > 0 && Within(PostingList(j, d), LastEntry(j), j.entries.Keys) {
      assert DataListed(j, d);
      PostingsWithin(j, d);
    }
  }

  lemma LastEntryWithin(j: Journal, tail: uint64)
    requires GlobalListed(j) && LastObject(j, tail)
    ensures LastEntry(j) <= tail
  {
    EntriesUpToLast(j);
  }

  /** A file that strict verification accepts is one a snapshot may be taken of. */
  lemma StrictQuiescent(j: Journal, hasher: Hasher, tail: uint64)
    requires Parsed(j) && V.StrictIndexed(j, hasher) && j.dataTable != [] && LastObject(j, tail)
    ensures Quiescent(j, hasher, tail, LastEntry(j)) && Published(j)
  {
    assert Published(j) by { StrictPublished(j); }
    assert PayloadsUnique(j, hasher) by { V.StrictUnique(j, hasher); }
    assert LastEntry(j) <= tail by { LastEntryWithin(j, tail); }
    AllWithin(j);
  }

  lemma PostingsWithin(j: Journal, d: uint64)
    requires d in j.data && DataListed(j, d) && forall e :: e in j.entries ==> e <= LastEntry(j)
    ensures Within(PostingList(j, d), LastEntry(j), j.entries.Keys)
  {
    var p := PostingList(j, d);
    forall i | 0 <= i < |p| ensures p[i] <= LastEntry(j) && p[i] in j.entries.Keys {
      assert p[i] in p;
    }
  }

  // ----- the captured bounds

  /** The array at `off`, if it lies within the bounds and its link leads forward. */
  method ArrayHeader(j: Journal, maxObject: uint64, off: uint64) returns (r: Result<EntryArray>)
    ensures r.Ok? ==> off in j.arrays && r.value == j.arrays[off] && r.value.items != []
    ensures ArraysSound(j.arrays) && off in j.arrays && off <= maxObject ==> r.Ok?
  {
    if off > maxObject || off !in j.arrays { return Err(CorruptObject); }
    var a := j.arrays[off];
    if a.items == [] || (a.next != 0 && a.next <= off) { return Err(CorruptObject); }
    return Ok(a);
  }

  datatype Tail = Tail(entry: uint64, at: uint64, used: nat)

  ghost function TailOf(arrays: Arrays, head: uint64, count: nat): Tail
    requires Complete(arrays, head, count) && count > 0
  {
    var p := Locate(arrays, head, count);
    Tail(ChainItems(arrays, head, count)[count-1], p.at, p.index)
  }

  lemma TailStep(arrays: Arrays, head: uint64, count: nat)
    requires Complete(arrays, head, count) && count > 0
    ensures head in arrays && arrays[head].items != []
    ensures var n := |arrays[head].items|;
            if count <= n then TailOf(arrays, head, count) == Tail(arrays[head].items[count-1], head, count)
            else Complete(arrays, arrays[head].next, count - n) && TailOf(arrays, head, count) == TailOf(arrays, arrays[head].next, count - n)
  {
  }

  /** The last of `total` slots is there, within the bounds. */
  ghost predicate TailReady(j: Journal, maxObject: uint64, head: uint64, total: nat) {
    && ArraysSound(j.arrays) && (forall x :: x in j.arrays ==> x <= maxObject)
    && Complete(j.arrays, head, total) && total > 0 && TailOf(j.arrays, head, total).entry <= maxObject
  }

  /** The last of `total` slots, found from array headers alone. */
  method ArrayTail(j: Journal, maxObject: uint64, head: uint64, total: nat) returns (r: Result<Tail>)
    ensures TailReady(j, maxObject, head, total) ==> r == Ok(TailOf(j.arrays, head, total))
  {
    ghost var good := TailReady(j, maxObject, head, total);
    var off: uint64, count: nat := head, total;
    while count > 0
      invariant good ==> count > 0 && Complete(j.arrays, off, count) && TailOf(j.arrays, off, count) == TailOf(j.arrays, head, total)
    {
      if good { TailStep(j.arrays, off, count); }
      var a := ArrayHeader(j, maxObject, off);
      if a.Err? { return Err(a.error); }
      var capacity := |a.value.items|;
      if count <= capacity {
        var entry := a.value.items[count-1];
        if entry > maxObject { return Err(CorruptObject); }
        return Ok(Tail(entry, off, count));
      }
      off, count := a.value.next, count - capacity;
    }
    return Err(CorruptObject);
  }

  lemma StrictTail(j: Journal, tail: uint64)
    requires Parsed(j) && StrictPostings(j) && LastObject(j, tail) && j.header.nEntries > 0
    ensures TailReady(j, tail, j.header.entryArrayOffset, j.header.nEntries)
    ensures var t := TailOf(j.arrays, j.header.entryArrayOffset, j.header.nEntries);
            && t.entry == LastEntry(j) && LastEntry(j) in j.entries
            && (j.header.hasTailArrayHint ==> j.header.tailArrayOffset == t.at && j.header.tailArrayUsed == t.used)
  {
    StrictArraysSound(j);
    EntriesUpToLast(j);
    assert Shaped(j, Global);
    var list := GlobalList(j);
    assert list[|list|-1] in Elements(list);
  }

  /** Captures the newest entry. On a strictly indexed file it is what the header's hints say. */
  method CaptureBoundary(j: Journal, tail: uint64) returns (r: Result<uint64>)
    ensures Parsed(j) && StrictPostings(j) && LastObject(j, tail) ==> r == Ok(LastEntry(j))
  {
    var h := j.header;
    ghost var good := Parsed(j) && StrictPostings(j) && LastObject(j, tail);
    if h.nEntries == 0 {
      assert good ==> Shaped(j, Global);
      return if h.entryArrayOffset == 0 then Ok(0) else Err(CorruptObject);
    }
    if good { StrictTail(j, tail); }
    var t := ArrayTail(j, tail, h.entryArrayOffset, h.nEntries);
    if t.Err? { return Err(t.error); }
    if t.value.entry !in j.entries { return Err(CorruptObject); }
    if h.hasTailArrayHint && (h.tailArrayOffset != t.value.at || h.tailArrayUsed != t.value.used) { return Err(CorruptObject); }
    return Ok(t.value.entry);
  }

  // ----- the captured FIELD heads

  ghost predicate FieldHead(j: Journal, name: bytes, head: uint64) {
    && (forall f :: X.Names(j, name, f) ==> head == j.fields[f].headData)
    && ((forall f :: !X.Names(j, name, f)) ==> head == 0)
  }

  /** A file whose FIELD objects can be found by name. */
  ghost predicate FieldsFound(j: Journal, hasher: Hasher, tail: uint64) {
    && HashIndexed(FieldLinks(j), j.fieldTable) && j.fieldTable != [] && X.FieldHashesStored(j, hasher) && FieldIndexed(j)
    && LastObject(j, tail)
  }

  lemma FieldHeadFound(j: Journal, hasher: Hasher, tail: uint64, name: bytes, f: uint64)
    requires FieldsFound(j, hasher, tail) && X.Names(j, name, f)
    ensures j.fields[f].headData != 0 && j.fields[f].headData <= tail && FieldHead(j, name, j.fields[f].headData)
  {
    assert f in j.fields.Keys;
    assert FieldOk(j, f);
    forall g | X.Names(j, name, g) ensures g == f {
      assert g in j.fields.Keys;
    }
  }

  /** Walks a bucket of FIELD objects for a name. */
  method WalkFields(j: Journal, hasher: Hasher, tail: uint64, name: bytes, head: uint64, ghost good: bool) returns (r: Result<uint64>)
    requires good ==> FieldsFound(j, hasher, tail) && ChainOk(FieldLinks(j), head)
                      && forall f :: X.Names(j, name, f) ==> f in Chain(FieldLinks(j), head)
    ensures good ==> r.Ok? && FieldHead(j, name, r.value)
  {
    var off: uint64 := head;
    while off != 0
      invariant good ==> X.NameAhead(j, name, head, off)
      decreases if off == 0 then 0 else MAX_U64 - off + 1
    {
      if off > tail || off !in j.fields { return Err(CorruptObject); }
      var h := j.fields[off];
      if good && h.name != name { X.NameStep(j, name, head, off); }
      if good { ChainLink(j, tail, off); }
      if h.nextHash != 0 && h.nextHash <= off { return Err(CorruptObject); }
      if h.nextHash > tail { return Err(CorruptObject); }
      if h.hash == hasher(name) && h.name == name {
        if good { FieldHeadFound(j, hasher, tail, name, off); }
        if h.headData == 0 || h.headData > tail { return Err(CorruptObject); }
        return Ok(h.headData);
      }
      off := h.nextHash;
    }
    return Ok(0);
  }

  lemma ChainLink(j: Journal, tail: uint64, off: uint64)
    requires ChainOk(FieldLinks(j), off) && off in j.fields && off != 0 && LastObject(j, tail)
    ensures j.fields[off].nextHash == 0 || off < j.fields[off].nextHash <= tail
  {
  }

  /** The head of a field's values, or 0 when there is no such field. */
  method FindFieldHead(j: Journal, hasher: Hasher, tail: uint64, name: bytes) returns (r: Result<uint64>)
    ensures FieldsFound(j, hasher, tail) && Usable(name) ==> r.Ok? && FieldHead(j, name, r.value)
  {
    if !Usable(name) || |j.fieldTable| == 0 { return Err(CorruptObject); }
    var hash := hasher(name);
    var b := hash % |j.fieldTable|;
    ghost var good := FieldsFound(j, hasher, tail);
    if good {
      assert BucketOk(FieldLinks(j), j.fieldTable, b);
      assert forall f :: X.Names(j, name, f) ==> f in FieldLinks(j) && FieldLinks(j)[f].hash == hash;
    }
    r := WalkFields(j, hasher, tail, name, j.fieldTable[b].head, good);
  }

  /** The captured heads are those of the declared fields. */
  ghost predicate HeadsRight(j: Journal, names: seq<bytes>, heads: map<bytes, uint64>) {
    (forall n :: n in heads <==> n in names) && forall n :: n in heads ==> FieldHead(j, n, heads[n])
  }

  lemma HeadsMore(j: Journal, names: seq<bytes>, heads: map<bytes, uint64>, name: bytes, head: uint64)
    requires HeadsRight(j, names, heads) && FieldHead(j, name, head)
    ensures HeadsRight(j, names + [name], heads[name := head])
  {
  }

  predicate Usable(name: bytes) {
    name != [] && EQUALS !in name
  }

  predicate AllUsable(names: seq<bytes>) {
    forall i :: 0 <= i < |names| ==> Usable(names[i])
  }

  /** Captures the heads of the declared fields. */
  method CaptureFields(j: Journal, hasher: Hasher, tail: uint64, names: seq<bytes>) returns (r: Result<map<bytes, uint64>>)
    ensures FieldsFound(j, hasher, tail) && AllUsable(names) ==> r.Ok? && HeadsRight(j, names, r.value)
  {
    ghost var good := FieldsFound(j, hasher, tail) && AllUsable(names);
    var heads: map<bytes, uint64> := map[];
    for i := 0 to |names|
      invariant good ==> HeadsRight(j, names[..i], heads)
    {
      var head := FindFieldHead(j, hasher, tail, names[i]);
      if head.Err? { return Err(head.error); }
      assert names[..i+1] == names[..i] + [names[i]];
      if good { HeadsMore(j, names[..i], heads, names[i], head.value); }
      heads := heads[names[i] := head.value];
    }
    assert names[..|names|] == names;
    return Ok(heads);
  }

  // ----- visiting while writing

  /** A strictly indexed file at rest, with its last object known. */
  ghost predicate Capturable(s: State, hasher: Hasher) {
    && Parsed(s.journal) && V.StrictIndexed(s.journal, hasher) && s.journal.dataTable != [] && s.journal.fieldTable != []
    && LastObject(s.journal, s.top) && s.entry == 0 && s.data == 0
  }

  lemma CapturableAtRest(s: State, hasher: Hasher)
    requires Capturable(s, hasher)
    ensures AtRest(s, hasher, s.top, LastEntry(s.journal)) && FieldsFound(s.journal, hasher, s.top)
  {
    StrictQuiescent(s.journal, hasher, s.top);
  }

  /** The values on a captured chain are the values of the field, each once. */
  lemma CapturedValues(j: Journal, field: bytes, head: uint64)
    requires FieldIndexed(j) && FieldHead(j, field, head)
    ensures ValuesOk(j.data, head) && Descending(Values(j.data, head))
    ensures forall d :: d in Values(j.data, head) <==> d in j.data && FieldName(j.data[d].payload) == field
  {
    ValuesDescend(j.data, head);
    if f :| X.Names(j, field, f) {
      FieldComplete(j, f);
    } else {
      X.NoValues(j, field);
    }
  }

  lemma NamedValue(o: DataObject, hasher: Hasher, field: bytes)
    requires V.Readable(o, hasher) && FieldName(o.payload) == field
    ensures IsValueOf(o.payload, field)
  {
    V.NamedPayload(o.payload);
  }

  /** The clock of a visit: time moves on, and a cached window is never newer than the file. */
  ghost predicate Schedule(n: nat, stale: nat -> nat, now: nat -> nat) {
    && (forall i: nat :: stale(i) <= now(i) < n)
    && (forall i: nat, k: nat :: i <= k ==> now(i) <= now(k))
  }

  /** Opens a snapshot of a file at rest. Whatever the writer stores from then on, the snapshot is
      ready for visits. */
  method Open(file: seq<Journal>, stale: nat -> nat, now: nat -> nat, hasher: Hasher, tail: uint64, names: seq<bytes>,
              ghost s: State, ghost stores: seq<Store>) returns (snapshot: IndexedSnapshot)
    requires Capturable(s, hasher) && tail == s.top && LegalRun(s, stores) && file == Moments(s, stores)
    requires Schedule(|file|, stale, now) && AllUsable(names)
    ensures fresh(snapshot) && snapshot.Ready() && snapshot.file == file && !snapshot.busy && !snapshot.closed && snapshot.visited == []
    ensures snapshot.maxObject == tail && snapshot.maxEntry == LastEntry(s.journal)
    ensures HeadsRight(s.journal, names, snapshot.fields) && snapshot.GlobalReady()
    ensures forall n :: n in snapshot.fields ==> snapshot.FieldReady(n, snapshot.fields[n])
  {
    CapturableAtRest(s, hasher);
    RunIsHistory(s, stores, hasher, s.top, LastEntry(s.journal));
    var maxEntry := CaptureBoundary(file[0], tail);
    var heads := CaptureFields(file[0], hasher, tail, names);
    snapshot := new IndexedSnapshot(file, stale, now, hasher, tail, maxEntry.value, heads.value);
    GlobalCaptured(s.journal);
    forall n | n in snapshot.fields ensures snapshot.FieldReady(n, snapshot.fields[n]) {
      FieldCaptured(s.journal, hasher, n, snapshot.fields[n]);
    }
  }

  lemma FieldCaptured(j: Journal, hasher: Hasher, field: bytes, head: uint64)
    requires FieldIndexed(j) && V.SoundData(j.data, j.data.Keys, hasher) && FieldHead(j, field, head)
    ensures ValuesOk(j.data, head)
    ensures forall d :: d in Values(j.data, head) ==> d in j.data && IsValueOf(j.data[d].payload, field)
  {
    CapturedValues(j, field, head);
    forall d | d in Values(j.data, head) ensures IsValueOf(j.data[d].payload, field) {
      NamedValue(j.data[d], hasher, field);
    }
  }

  /** Opens a snapshot of a file at rest, then visits a field's values while the writer makes any run
      of stores: whatever the schedule of stale reads, the visit hands out the postings that the
      accepted values had at capture, value by value. */
  method CaptureThenVisitField(file: seq<Journal>, stale: nat -> nat, now: nat -> nat, hasher: Hasher, tail: uint64,
                               field: bytes, accept: bytes -> bool, ghost s: State, ghost stores: seq<Store>)
    returns (outcome: Outcome, visited: seq<uint64>, ghost values: seq<uint64>)
    requires Capturable(s, hasher) && tail == s.top && LegalRun(s, stores) && file == Moments(s, stores)
    requires Schedule(|file|, stale, now) && field != [] && EQUALS !in field
    ensures outcome == Done && Descending(values)
    ensures forall d :: d in values <==> d in s.journal.data && FieldName(s.journal.data[d].payload) == field
    ensures visited == Handed(s.journal, values, field, accept)
  {
    var snapshot := Open(file, stale, now, hasher, tail, [field], s, stores);
    outcome := snapshot.VisitField(field, accept);
    visited, values := snapshot.visited, Values(s.journal.data, snapshot.fields[field]);
    CapturedValues(s.journal, field, snapshot.fields[field]);
  }

  /** The same for one value. */
  method CaptureThenVisitMatch(file: seq<Journal>, stale: nat -> nat, now: nat -> nat, hasher: Hasher, tail: uint64,
                               name: bytes, value: bytes, ghost s: State, ghost stores: seq<Store>)
    returns (outcome: Outcome, visited: seq<uint64>)
    requires Capturable(s, hasher) && tail == s.top && LegalRun(s, stores) && file == Moments(s, stores)
    requires Schedule(|file|, stale, now) && name != [] && EQUALS !in name
    ensures outcome == Done && Matched(s.journal, name + [EQUALS] + value, visited)
  {
    var snapshot := Open(file, stale, now, hasher, tail, [], s, stores);
    outcome, visited := MatchOpened(snapshot, s.journal, name, value);
  }

  /** The postings of the value, or none when no DATA object holds it. */
  ghost predicate Matched(j: Journal, payload: bytes, visited: seq<uint64>) {
    && (forall d :: Holds(j, payload, d) ==> visited == PostingList(j, d))
    && ((forall d :: !Holds(j, payload, d)) ==> visited == [])
  }

  method MatchOpened(snapshot: IndexedSnapshot, ghost j: Journal, name: bytes, value: bytes) returns (outcome: Outcome, visited: seq<uint64>)
    requires snapshot.Ready() && snapshot.file[0] == j && !snapshot.busy && !snapshot.closed && snapshot.visited == [] && name != [] && EQUALS !in name
    modifies snapshot
    ensures outcome == Done && Matched(j, name + [EQUALS] + value, visited)
  {
    outcome := snapshot.VisitMatch(name, value);
    visited := snapshot.visited;
  }

  /** The same for the whole population. */
  method CaptureThenVisitEntries(file: seq<Journal>, stale: nat -> nat, now: nat -> nat, hasher: Hasher, tail: uint64,
                                 ghost s: State, ghost stores: seq<Store>)
    returns (outcome: Outcome, visited: seq<uint64>)
    requires Capturable(s, hasher) && tail == s.top && LegalRun(s, stores) && file == Moments(s, stores)
    requires Schedule(|file|, stale, now)
    ensures outcome == Done && visited == GlobalList(s.journal)
  {
    var snapshot := Open(file, stale, now, hasher, tail, [], s, stores);
    outcome := snapshot.VisitEntries();
    visited := snapshot.visited;
  }

  lemma GlobalCaptured(j: Journal)
    requires Parsed(j) && StrictPostings(j)
    ensures Filled(j.arrays, j.header.entryArrayOffset, j.header.nEntries) && Ascending(GlobalList(j))
    ensures Within(GlobalList(j), LastEntry(j), j.entries.Keys)
  {
    assert Shaped(j, Global);
    EntriesUpToLast(j);
    var list := GlobalList(j);
    forall i | 0 <= i < |list| ensures list[i] in j.entries {
      assert list[i] in Elements(list);
    }
    assert 0 in list ==> 0 in Elements(list);
  }
}
