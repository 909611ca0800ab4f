/** The writer's stores in publication order (go/journal/writer_arrays.go:212-264,
    go/journal/writer_objects.go:8-160): every run of them is a history that snapshots tolerate. */
module SnapshotWrites {
  import opened JournalGraph
  import opened HashIndex
  import opened SnapshotGrowth
  import opened Snapshot

  /** The file, the end of its objects, and the entry and DATA object being published. */
  datatype State = State(journal: Journal, top: uint64, entry: uint64, data: uint64)

  /** One store to the file. */
  datatype Store =
    | NewEntry(offset: uint64, entry: EntryObject)
    | NewData(offset: uint64, payload: bytes, hash: uint64)
    | NewField(offset: uint64, name: bytes, hash: uint64)
    | NewArray(offset: uint64, capacity: nat)
    | SetBucketHead(bucket: nat)
    | SetNextHash(tail: uint64)
    | SetNextField(next: uint64)
    | SetFieldHead(f: uint64)
    | SetFirst(d: uint64)
    | SetHead(d: uint64, at: uint64)
    | SetNext(at: uint64, next: uint64)
    | SetSlot(at: uint64, index: nat)
    | SetCount(d: uint64)

  /** When the writer makes a store: space is taken from the end, a scalar is filled once, and a
      count is raised only over a posting that is in place. */
  ghost predicate Legal(s: State, store: Store) {
    var j := s.journal;
    match store
    case NewEntry(x, _) => x > s.top
    case NewData(x, _, _) => x > s.top
    case NewField(x, _, _) => x > s.top
    case NewArray(x, n) => x > s.top && n > 0
    case SetBucketHead(b) => s.data != 0 && b < |j.dataTable| && j.dataTable[b].head == 0
    case SetNextHash(x) => s.data != 0 && x in j.data && j.data[x].nextHash == 0
    case SetNextField(_) => s.data in j.data
    case SetFieldHead(f) => s.data != 0 && f in j.fields
    case SetFirst(d) => s.entry != 0 && d in j.data && j.data[d].entryOffset == 0
    case SetHead(d, x) => d in j.data && j.data[d].entryArrayOffset == 0 && x in j.arrays
    case SetNext(x, y) => x in j.arrays && j.arrays[x].next == 0 && y in j.arrays && y > x
    case SetSlot(x, i) => s.entry != 0 && x in j.arrays && i < |j.arrays[x].items| && j.arrays[x].items[i] == 0
    case SetCount(d) => d in j.data && j.data[d].nEntries < MAX_U64 && InPlace(j, d, s.entry)
  }

  /** The posting after the counted ones is there and names the entry being published. */
  ghost predicate InPlace(j: Journal, d: uint64, entry: uint64)
    requires d in j.data && j.data[d].nEntries < MAX_U64
  {
    var n := j.data[d].nEntries + 1;
    var p := Postings(j.arrays, j.data[d].entryOffset, j.data[d].entryArrayOffset, n);
    HealthyPostings(p, n) && p[n-1] == entry
  }

  function Apply(s: State, store: Store): State
    requires Legal(s, store)
  {
    var j := s.journal;
    match store
    case NewEntry(x, e) => s.(journal := j.(entries := j.entries[x := e]), top := x, entry := x)
    case NewData(x, p, h) => s.(journal := j.(data := j.data[x := DataObject(p, h, 0, 0, 0, 0, 0, 0, 0)]), top := x, data := x)
    case NewField(x, n, h) => s.(journal := j.(fields := j.fields[x := FieldObject(n, h, 0, 0)]), top := x)
    case NewArray(x, n) => s.(journal := j.(arrays := j.arrays[x := EntryArray(0, seq(n, _ => 0))]), top := x)
    case SetBucketHead(b) => s.(journal := j.(dataTable := j.dataTable[b := j.dataTable[b].(head := s.data)]))
    case SetNextHash(x) => s.(journal := j.(data := j.data[x := j.data[x].(nextHash := s.data)]))
    case SetNextField(x) => s.(journal := j.(data := j.data[s.data := j.data[s.data].(nextField := x)]))
    case SetFieldHead(f) => s.(journal := j.(fields := j.fields[f := j.fields[f].(headData := s.data)]))
    case SetFirst(d) => s.(journal := j.(data := j.data[d := j.data[d].(entryOffset := s.entry)]))
    case SetHead(d, x) => s.(journal := j.(data := j.data[d := j.data[d].(entryArrayOffset := x)]))
    case SetNext(x, y) => s.(journal := j.(arrays := j.arrays[x := j.arrays[x].(next := y)]))
    case SetSlot(x, i) => s.(journal := j.(arrays := j.arrays[x := j.arrays[x].(items := j.arrays[x].items[i := s.entry])]))
    case SetCount(d) => s.(journal := j.(data := j.data[d := j.data[d].(nEntries := j.data[d].nEntries + 1)]))
  }

  // ----- growth composes

  lemma GrowsReflexive(j: Journal)
    ensures Grows(j, j)
  {
  }

  lemma GrowsTransitive(a: Journal, b: Journal, c: Journal)
    requires Grows(a, b) && Grows(b, c)
    ensures Grows(a, c)
  {
  }

  lemma StoreGrowsData(s: State, store: Store)
    requires Legal(s, store) && Bounded(s)
    ensures var a, b := s.journal.data, Apply(s, store).journal.data; forall d :: d in a ==> d in b && DataGrows(a[d], b[d])
  {
  }

  lemma StoreGrowsArrays(s: State, store: Store)
    requires Legal(s, store) && Bounded(s)
    ensures ArraysGrow(s.journal.arrays, Apply(s, store).journal.arrays)
  {
  }

  lemma StoreGrowsTable(s: State, store: Store)
    requires Legal(s, store)
    ensures TableGrows(s.journal.dataTable, Apply(s, store).journal.dataTable)
    ensures forall e :: e in s.journal.entries ==> e in Apply(s, store).journal.entries
  {
  }

  lemma StoreGrows(s: State, store: Store)
    requires Legal(s, store) && Bounded(s)
    ensures Grows(s.journal, Apply(s, store).journal)
  {
    StoreGrowsData(s, store);
    StoreGrowsArrays(s, store);
    StoreGrowsTable(s, store);
  }

  /** Every object lies within the file. */
  ghost predicate Bounded(s: State) {
    var j := s.journal;
    (forall d :: d in j.data ==> d <= s.top) && (forall x :: x in j.arrays ==> x <= s.top) && (forall e :: e in j.entries ==> e <= s.top)
  }

  lemma StoreBounded(s: State, store: Store)
    requires Legal(s, store) && Bounded(s)
    ensures Bounded(Apply(s, store)) && Apply(s, store).top >= s.top
  {
  }

  // ----- what every store keeps

  /** Postings counted before a growth that counts no more are the same after it. */
  lemma SameCount(j: Journal, k: Journal, d: uint64)
    requires Grows(j, k) && Published(j) && d in j.data && d in k.data && 0 < j.data[d].nEntries == k.data[d].nEntries
    ensures PostingList(k, d) == PostingList(j, d)
  {
    CountedFilled(j, d);
    ChainKept(j.arrays, k.arrays, j.data[d].entryArrayOffset, j.data[d].nEntries - 1);
  }

  lemma StoreArraysSound(s: State, store: Store)
    requires Legal(s, store) && ArraysSound(s.journal.arrays) && Bounded(s)
    ensures ArraysSound(Apply(s, store).journal.arrays)
  {
  }

  /** A DATA object after a store: as it was, new and uncounted, or counting one more posting. */
  lemma StoreCounts(s: State, store: Store, d: uint64)
    requires Legal(s, store) && Bounded(s) && d in Apply(s, store).journal.data
    ensures var j, k := s.journal, Apply(s, store).journal;
            if store == SetCount(d) then
              && d in j.data && k.data[d].nEntries == j.data[d].nEntries + 1 && k.arrays == j.arrays
              && k.data[d].entryOffset == j.data[d].entryOffset && k.data[d].entryArrayOffset == j.data[d].entryArrayOffset
            else if d in j.data then k.data[d].nEntries == j.data[d].nEntries
            else k.data[d].nEntries == 0 && d > s.top
  {
  }

  lemma StorePublishes(s: State, store: Store)
    requires Legal(s, store) && Bounded(s) && Published(s.journal)
    ensures Published(Apply(s, store).journal)
  {
    var j, k := s.journal, Apply(s, store).journal;
    StoreArraysSound(s, store);
    StoreGrows(s, store);
    forall d | d in k.data && k.data[d].nEntries > 0 ensures HealthyPostings(PostingList(k, d), k.data[d].nEntries) {
      StoreCounts(s, store, d);
      if store != SetCount(d) { SameCount(j, k, d); }
    }
  }

  /** What the snapshot bounds say of a later state. */
  ghost predicate StillBeyond(j0: Journal, s: State, maxObject: uint64, maxEntry: uint64) {
    && Bounded(s) && s.top >= maxObject >= maxEntry
    && (s.entry != 0 ==> s.entry > maxEntry) && (s.data != 0 ==> s.data > maxObject) && 0 !in s.journal.data
    && (forall d :: d in j0.data ==> d <= maxObject)
    && Published(s.journal) && Grows(j0, s.journal) && Beyonds(j0, s.journal, maxObject, maxEntry)
  }

  /** A counted posting that was not there at capture names a later entry. */
  lemma StoreAppends(j0: Journal, s: State, store: Store, d: uint64, maxObject: uint64, maxEntry: uint64)
    requires Legal(s, store) && StillBeyond(j0, s, maxObject, maxEntry) && d in j0.data && j0.data[d].nEntries > 0
    ensures var k := Apply(s, store).journal;
            && d in s.journal.data && d in k.data
            && forall i :: j0.data[d].nEntries <= i < |PostingList(k, d)| ==> PostingList(k, d)[i] > maxEntry
  {
    var j, k := s.journal, Apply(s, store).journal;
    StoreGrows(s, store);
    StoreCounts(s, store, d);
    StorePublishes(s, store);
    if store == SetCount(d) {
      KeptPostings(j, k, d);
      LastPosting(PostingList(j, d), PostingList(k, d), j0.data[d].nEntries, maxEntry);
    } else {
      SameCount(j, k, d);
    }
  }

  lemma LastPosting(p: seq<uint64>, q: seq<uint64>, n: nat, maxEntry: uint64)
    requires |q| == |p| + 1 && p == q[..|p|] && q[|p|] > maxEntry
    requires forall i :: n <= i < |p| ==> p[i] > maxEntry
    ensures forall i :: n <= i < |q| ==> q[i] > maxEntry
  {
    forall i | n <= i < |q| ensures q[i] > maxEntry {
      if i < |p| { assert q[i] == p[i]; }
    }
  }

  lemma StoreBeyond(j0: Journal, s: State, store: Store, maxObject: uint64, maxEntry: uint64)
    requires Legal(s, store) && StillBeyond(j0, s, maxObject, maxEntry) && forall d :: d in j0.data ==> j0.data[d].nEntries > 0
    ensures StillBeyond(j0, Apply(s, store), maxObject, maxEntry)
  {
    StoreBounded(s, store);
    StorePublishes(s, store);
    StoreGrows(s, store);
    GrowsTransitive(j0, s.journal, Apply(s, store).journal);
    StoreNew(j0, s, store, maxObject, maxEntry);
    StoreDataLinks(j0, s, store, maxObject, maxEntry);
    StoreHeads(j0, s, store, maxObject, maxEntry);
    forall d | d in j0.data ensures
      forall i :: j0.data[d].nEntries <= i < |PostingList(Apply(s, store).journal, d)| ==> PostingList(Apply(s, store).journal, d)[i] > maxEntry
    {
      StoreAppends(j0, s, store, d, maxObject, maxEntry);
    }
  }

  /** New objects lie beyond the bounds. */
  lemma StoreNew(j0: Journal, s: State, store: Store, maxObject: uint64, maxEntry: uint64)
    requires Legal(s, store) && StillBeyond(j0, s, maxObject, maxEntry)
    ensures var t := Apply(s, store);
            && (t.entry != 0 ==> t.entry > maxEntry) && (t.data != 0 ==> t.data > maxObject)
            && (forall d :: d in t.journal.data && d !in j0.data ==> d > maxObject)
            && (forall x :: x in t.journal.arrays && x !in j0.arrays ==> x > maxObject) && 0 !in t.journal.data
  {
  }

  lemma StoreDataLinks(j0: Journal, s: State, store: Store, maxObject: uint64, maxEntry: uint64)
    requires Legal(s, store) && StillBeyond(j0, s, maxObject, maxEntry)
    ensures var k := Apply(s, store).journal;
            && (forall d :: d in j0.data && d in k.data ==> k.data[d].nextField == j0.data[d].nextField)
            && (forall d :: d in j0.data && d in k.data && j0.data[d].nextHash == 0 && k.data[d].nextHash != 0 ==> k.data[d].nextHash > maxObject)
  {
    var k := Apply(s, store).journal;
    forall d | d in j0.data && d in k.data
      ensures k.data[d].nextField == j0.data[d].nextField
      ensures j0.data[d].nextHash == 0 && k.data[d].nextHash != 0 ==> k.data[d].nextHash > maxObject
    {
      assert d in s.journal.data;
      StoreLinks(s, store, d);
    }
  }

  /** A link changes only to the DATA object being published; the field link only of that object. */
  lemma StoreLinks(s: State, store: Store, d: uint64)
    requires Legal(s, store) && Bounded(s) && d in s.journal.data
    ensures var j, k := s.journal, Apply(s, store).journal;
            && d in k.data && (k.data[d].nextHash == j.data[d].nextHash || k.data[d].nextHash == s.data)
            && (k.data[d].nextField == j.data[d].nextField || d == s.data)
  {
  }

  lemma StoreHeads(j0: Journal, s: State, store: Store, maxObject: uint64, maxEntry: uint64)
    requires Legal(s, store) && StillBeyond(j0, s, maxObject, maxEntry)
    ensures var k := Apply(s, store).journal;
            |j0.dataTable| == |k.dataTable| ==>
              forall b :: 0 <= b < |j0.dataTable| && j0.dataTable[b].head == 0 && k.dataTable[b].head != 0 ==> k.dataTable[b].head > maxObject
  {
  }

  // ----- whole runs

  ghost predicate LegalRun(s: State, stores: seq<Store>)
    decreases |stores|
  {
    stores == [] || (Legal(s, stores[0]) && LegalRun(Apply(s, stores[0]), stores[1..]))
  }

  /** The file before the first store and after each one. */
  ghost function Moments(s: State, stores: seq<Store>): (file: seq<Journal>)
    requires LegalRun(s, stores)
    ensures |file| == |stores| + 1 && file[0] == s.journal
    decreases |stores|
  {
    if stores == [] then [s.journal] else [s.journal] + Moments(Apply(s, stores[0]), stores[1..])
  }

  ghost predicate Ordered(file: seq<Journal>) {
    forall t, u {:trigger Between(file, t, u)} :: 0 <= t <= u < |file| ==> Between(file, t, u)
  }

  ghost predicate StaysBeyond(j0: Journal, file: seq<Journal>, maxObject: uint64, maxEntry: uint64) {
    forall t :: 0 <= t < |file| ==> Published(file[t]) && Beyonds(j0, file[t], maxObject, maxEntry)
  }

  lemma OrderedCons(j: Journal, file: seq<Journal>)
    requires |file| > 0 && Ordered(file) && Grows(j, file[0])
    ensures Ordered([j] + file)
  {
    var all := [j] + file;
    forall t, u | 0 <= t <= u < |all| ensures Between(all, t, u) {
      if t > 0 {
        assert Between(file, t - 1, u - 1);
      } else if u > 0 {
        assert Between(file, 0, u - 1);
        GrowsTransitive(j, file[0], file[u-1]);
      } else {
        GrowsReflexive(j);
      }
    }
  }

  lemma BeyondCons(j0: Journal, j: Journal, file: seq<Journal>, maxObject: uint64, maxEntry: uint64)
    requires StaysBeyond(j0, file, maxObject, maxEntry) && Published(j) && Beyonds(j0, j, maxObject, maxEntry)
    ensures StaysBeyond(j0, [j] + file, maxObject, maxEntry)
  {
  }

  lemma {:induction false} RunBeyond(j0: Journal, s: State, stores: seq<Store>, maxObject: uint64, maxEntry: uint64)
    requires LegalRun(s, stores) && StillBeyond(j0, s, maxObject, maxEntry) && forall d :: d in j0.data ==> j0.data[d].nEntries > 0
    ensures Ordered(Moments(s, stores)) && StaysBeyond(j0, Moments(s, stores), maxObject, maxEntry)
    decreases |stores|
  {
    if stores == [] {
      GrowsReflexive(s.journal);
    } else {
      var t := Apply(s, stores[0]);
      StoreBeyond(j0, s, stores[0], maxObject, maxEntry);
      RunBeyond(j0, t, stores[1..], maxObject, maxEntry);
      StoreGrows(s, stores[0]);
      OrderedCons(s.journal, Moments(t, stores[1..]));
      BeyondCons(j0, s.journal, Moments(t, stores[1..]), maxObject, maxEntry);
    }
  }

  /** The state in which a snapshot is taken. */
  ghost predicate AtRest(s: State, hasher: Hasher, maxObject: uint64, maxEntry: uint64) {
    && Quiescent(s.journal, hasher, maxObject, maxEntry) && Published(s.journal) && Bounded(s)
    && s.top >= maxObject && s.entry == 0 && s.data == 0
  }

  /** Every run of the writer from a state at rest is a history. */
  lemma RunIsHistory(s: State, stores: seq<Store>, hasher: Hasher, maxObject: uint64, maxEntry: uint64)
    requires AtRest(s, hasher, maxObject, maxEntry) && LegalRun(s, stores)
    ensures History(Moments(s, stores), hasher, maxObject, maxEntry)
  {
    var file := Moments(s, stores);
    GrowsReflexive(s.journal);
    AtRestBeyond(s, hasher, maxObject, maxEntry);
    RunBeyond(s.journal, s, stores, maxObject, maxEntry);
    forall t | 0 <= t < |file| ensures Moment(file, t, maxObject, maxEntry) {
      assert file[t] == file[t];
    }
  }

  lemma AtRestBeyond(s: State, hasher: Hasher, maxObject: uint64, maxEntry: uint64)
    requires AtRest(s, hasher, maxObject, maxEntry) && Grows(s.journal, s.journal)
    ensures StillBeyond(s.journal, s, maxObject, maxEntry)
  {
  }

  /** A visit while the writer makes any run of stores hands out the captured postings. */
  method VisitWhileWriting(file: seq<Journal>, stale: nat -> nat, now: nat -> nat, hasher: Hasher,
                           maxObject: uint64, maxEntry: uint64, name: bytes, value: bytes,
                           ghost s: State, ghost stores: seq<Store>) returns (outcome: Outcome, visited: seq<uint64>)
    requires AtRest(s, hasher, maxObject, maxEntry) && LegalRun(s, stores) && file == Moments(s, stores)
    requires forall i: nat :: stale(i) <= now(i) < |file|
    requires forall i: nat, k: nat :: i <= k ==> now(i) <= now(k)
    requires name != [] && EQUALS !in name
    ensures outcome == Done
    ensures forall d :: Holds(s.journal, name + [EQUALS] + value, d) ==> visited == PostingList(s.journal, d)
    ensures (forall d :: !Holds(s.journal, name + [EQUALS] + value, d)) ==> visited == []
  {
    RunIsHistory(s, stores, hasher, maxObject, maxEntry);
    var snapshot := new IndexedSnapshot(file, stale, now, hasher, maxObject, maxEntry, map[]);
    outcome := snapshot.VisitMatch(name, value);
    visited := snapshot.visited;
  }
}
