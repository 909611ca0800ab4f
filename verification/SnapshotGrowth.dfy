/** How an append-only writer may change a journal file between two moments, and what such
    growth leaves of a posting list (publication order: go/journal/indexed_snapshot_visit.go:104-106). */
module SnapshotGrowth {
  import opened JournalGraph
  import EntryArrays
  import opened HashIndex

  /** A scalar that is written once: empty, or what it will stay. */
  ghost predicate Fills(a: uint64, b: uint64) {
    a != 0 ==> b == a
  }

  ghost predicate ArrayGrows(a: EntryArray, b: EntryArray) {
    |a.items| == |b.items| && Fills(a.next, b.next) && forall i :: 0 <= i < |a.items| ==> Fills(a.items[i], b.items[i])
  }

  ghost predicate ArraysGrow(a: Arrays, b: Arrays) {
    forall x :: x in a ==> x in b && ArrayGrows(a[x], b[x])
  }

  ghost predicate DataGrows(a: DataObject, b: DataObject) {
    && a.payload == b.payload && a.hash == b.hash && a.nEntries <= b.nEntries
    && Fills(a.nextHash, b.nextHash) && Fills(a.entryOffset, b.entryOffset) && Fills(a.entryArrayOffset, b.entryArrayOffset)
  }

  ghost predicate TableGrows(a: seq<HashItem>, b: seq<HashItem>) {
    |a| == |b| && forall i :: 0 <= i < |a| ==> Fills(a[i].head, b[i].head)
  }

  /** Objects only ever appear, and their scalars are only ever filled in. */
  ghost predicate Grows(a: Journal, b: Journal) {
    && (forall d :: d in a.data ==> d in b.data && DataGrows(a.data[d], b.data[d]))
    && ArraysGrow(a.arrays, b.arrays) && (forall e :: e in a.entries ==> e in b.entries) && TableGrows(a.dataTable, b.dataTable)
  }

  ghost predicate ArraysSound(arrays: Arrays) {
    forall x :: x in arrays ==> arrays[x].items != [] && (arrays[x].next == 0 || arrays[x].next > x)
  }

  /** Offsets are published before the counts that cover them, so at every moment the counted
      postings are all there. */
  ghost predicate Published(j: Journal) {
    && ArraysSound(j.arrays)
    && forall d :: d in j.data && j.data[d].nEntries > 0 ==> HealthyPostings(PostingList(j, d), j.data[d].nEntries)
  }

  /** The state in which a snapshot is taken: no append is under way, and the indexes are sound. */
  ghost predicate Quiescent(j: Journal, hasher: Hasher, maxObject: uint64, maxEntry: uint64) {
    && maxEntry <= maxObject
    && HashIndexed(DataLinks(j), j.dataTable) && j.dataTable != [] && PayloadsUnique(j, hasher) && 0 !in j.data
    && (forall d :: d in j.data ==> d <= maxObject && j.data[d].nEntries > 0)
    && (forall x :: x in j.arrays ==> x <= maxObject)
    && (forall e :: e in j.entries ==> e <= maxObject)
    && (forall d :: d in j.data ==> Within(PostingList(j, d), maxEntry, j.entries.Keys))
  }

  ghost predicate Within(p: seq<uint64>, maxEntry: uint64, entries: set<uint64>) {
    forall i :: 0 <= i < |p| ==> p[i] <= maxEntry && p[i] in entries
  }

  /** What is new since the snapshot lies beyond what it captured. */
  ghost predicate Beyonds(j: Journal, k: Journal, maxObject: uint64, maxEntry: uint64) {
    && (forall d :: d in k.data && d !in j.data ==> d > maxObject)
    && (forall x :: x in k.arrays && x !in j.arrays ==> x > maxObject)
    && (forall d :: d in j.data && d in k.data ==>
          && (j.data[d].nextHash == 0 && k.data[d].nextHash != 0 ==> k.data[d].nextHash > maxObject)
          && k.data[d].nextField == j.data[d].nextField
          && forall i :: j.data[d].nEntries <= i < |PostingList(k, d)| ==> PostingList(k, d)[i] > maxEntry)
    && (|j.dataTable| == |k.dataTable| ==>
          forall b :: 0 <= b < |j.dataTable| && j.dataTable[b].head == 0 && k.dataTable[b].head != 0 ==> k.dataTable[b].head > maxObject)
  }

  /** A file from the snapshot (moment 0) up to the end of a visit. */
  ghost predicate History(file: seq<Journal>, hasher: Hasher, maxObject: uint64, maxEntry: uint64) {
    && |file| > 0 && Quiescent(file[0], hasher, maxObject, maxEntry)
    && (forall t {:trigger Moment(file, t, maxObject, maxEntry)} :: 0 <= t < |file| ==> Moment(file, t, maxObject, maxEntry))
    && (forall t, u {:trigger Between(file, t, u)} :: 0 <= t <= u < |file| ==> Between(file, t, u))
  }

  ghost predicate Moment(file: seq<Journal>, t: nat, maxObject: uint64, maxEntry: uint64)
    requires t < |file|
  {
    Published(file[t]) && Beyonds(file[0], file[t], maxObject, maxEntry)
  }

  ghost predicate Between(file: seq<Journal>, t: nat, u: nat)
    requires t <= u < |file|
  {
    Grows(file[t], file[u])
  }

  // ----- chains under growth

  /** The chain at `head` holds `count` slots, all filled. */
  ghost predicate Filled(arrays: Arrays, head: uint64, count: nat) {
    |ChainItems(arrays, head, count)| == count && 0 !in ChainItems(arrays, head, count)
  }

  /** Filled slots stay what they are. */
  lemma {:induction false} ChainKept(a: Arrays, b: Arrays, head: uint64, count: nat)
    requires ArraysGrow(a, b) && Filled(a, head, count)
    ensures ChainItems(b, head, count) == ChainItems(a, head, count)
    decreases count
  {
    if count > 0 {
      var items, chain := a[head].items, ChainItems(a, head, count);
      if count <= |items| {
        forall i | 0 <= i < count ensures b[head].items[i] == items[i] {
          assert chain[i] in chain;
        }
      } else {
        FilledTail(a, head, count);
        assert a[head].next != 0;
        forall i | 0 <= i < |items| ensures b[head].items[i] == items[i] {
          assert chain[i] in chain;
        }
        ChainKept(a, b, a[head].next, count - |items|);
        assert b[head].items == items;
      }
    }
  }

  lemma FilledTail(arrays: Arrays, head: uint64, count: nat)
    requires Filled(arrays, head, count) && count > 0
    ensures head in arrays && arrays[head].items != []
    ensures count > |arrays[head].items| ==> arrays[head].next in arrays && Filled(arrays, arrays[head].next, count - |arrays[head].items|)
    ensures forall i :: 0 <= i < |arrays[head].items| && i < count ==> arrays[head].items[i] == ChainItems(arrays, head, count)[i] != 0
  {
    var chain := ChainItems(arrays, head, count);
    var items := arrays[head].items;
    if count > |items| {
      var rest := ChainItems(arrays, arrays[head].next, count - |items|);
      assert chain == items + rest;
      forall x | x in rest ensures x != 0 { assert x in chain; }
    }
    forall i | 0 <= i < |items| && i < count ensures items[i] == chain[i] != 0 {
      assert chain[i] in chain;
    }
  }

  lemma FilledPrefix(arrays: Arrays, head: uint64, count: nat, more: nat)
    requires Filled(arrays, head, more) && count <= more
    ensures Filled(arrays, head, count) && ChainItems(arrays, head, count) == ChainItems(arrays, head, more)[..count]
  {
    EntryArrays.ChainPrefix(arrays, head, count, more);
    var whole := ChainItems(arrays, head, more);
    assert forall x :: x in whole[..count] ==> x in whole;
  }

  /** The chain of a DATA object is filled as far as its count says. */
  lemma CountedFilled(j: Journal, d: uint64)
    requires Published(j) && d in j.data && j.data[d].nEntries > 0
    ensures Filled(j.arrays, j.data[d].entryArrayOffset, j.data[d].nEntries - 1)
    ensures PostingList(j, d) == [j.data[d].entryOffset] + ChainItems(j.arrays, j.data[d].entryArrayOffset, j.data[d].nEntries - 1)
    ensures j.data[d].entryOffset != 0
    ensures j.data[d].nEntries > 1 ==> j.data[d].entryArrayOffset != 0
  {
    var p := PostingList(j, d);
    var chain := ChainItems(j.arrays, j.data[d].entryArrayOffset, j.data[d].nEntries - 1);
    assert p[0] in p;
    forall x | x in chain ensures x != 0 { assert x in p; }
  }

  /** The captured part of a posting list, read through the list's later head. */
  lemma KeptChain(j: Journal, k: Journal, d: uint64)
    requires Grows(j, k) && Published(j) && Published(k) && d in j.data && j.data[d].nEntries > 0
    ensures d in k.data && j.data[d].nEntries <= k.data[d].nEntries && j.data[d].entryOffset == k.data[d].entryOffset != 0
    ensures Filled(j.arrays, k.data[d].entryArrayOffset, j.data[d].nEntries - 1)
    ensures PostingList(j, d) == [j.data[d].entryOffset] + ChainItems(j.arrays, k.data[d].entryArrayOffset, j.data[d].nEntries - 1)
  {
    CountedFilled(j, d);
  }

  /** Growth only appends to a posting list. */
  lemma KeptPostings(j: Journal, k: Journal, d: uint64)
    requires Grows(j, k) && Published(j) && Published(k) && d in j.data && j.data[d].nEntries > 0
    ensures d in k.data && |PostingList(j, d)| == j.data[d].nEntries <= |PostingList(k, d)|
    ensures PostingList(j, d) == PostingList(k, d)[..j.data[d].nEntries]
  {
    var n, head := j.data[d].nEntries - 1, k.data[d].entryArrayOffset;
    KeptChain(j, k, d);
    CountedFilled(k, d);
    ChainKept(j.arrays, k.arrays, head, n);
    FilledPrefix(k.arrays, head, n, k.data[d].nEntries - 1);
  }

  /** Captured postings come first and lie within the bound, later ones beyond it. */
  ghost predicate Partitioned(p: seq<uint64>, kept: nat, maxEntry: uint64, entries: set<uint64>) {
    && 0 < kept <= |p| && Ascending(p)
    && (forall i :: 0 <= i < kept ==> p[i] <= maxEntry && p[i] in entries)
    && (forall i :: kept <= i < |p| ==> p[i] > maxEntry)
  }

  lemma PostingsPartitioned(j: Journal, k: Journal, hasher: Hasher, maxObject: uint64, maxEntry: uint64, d: uint64)
    requires Grows(j, k) && Published(j) && Published(k) && d in j.data && j.data[d].nEntries > 0
    requires Quiescent(j, hasher, maxObject, maxEntry) && Beyonds(j, k, maxObject, maxEntry)
    ensures d in k.data && Partitioned(PostingList(k, d), j.data[d].nEntries, maxEntry, j.entries.Keys)
    ensures |PostingList(k, d)| == k.data[d].nEntries && PostingList(k, d)[0] == k.data[d].entryOffset
  {
    KeptPostings(j, k, d);
    CountedFilled(k, d);
    PrefixValues(PostingList(j, d), PostingList(k, d), j.data[d].nEntries, maxEntry, j.entries.Keys);
  }

  lemma PrefixValues(p0: seq<uint64>, p: seq<uint64>, n: nat, maxEntry: uint64, entries: set<uint64>)
    requires n <= |p| && p0 == p[..n] && Within(p0, maxEntry, entries)
    ensures forall i :: 0 <= i < n ==> p[i] <= maxEntry && p[i] in entries
  {
    forall i | 0 <= i < n ensures p[i] <= maxEntry && p[i] in entries {
      assert p[i] == p0[i];
    }
  }

  /** Once counted, a chain is filled that far at every later moment, through the same head. */
  lemma CountedLater(a: Journal, t: Journal, last: Journal, d: uint64)
    requires d in a.data && a.data[d].nEntries > 0 && Grows(a, t) && Published(t) && Grows(t, last)
    ensures d in t.data && d in last.data
    ensures a.data[d].nEntries > 1 ==> t.data[d].entryArrayOffset == last.data[d].entryArrayOffset != 0
    ensures Filled(t.arrays, last.data[d].entryArrayOffset, a.data[d].nEntries - 1)
  {
    CountedFilled(t, d);
    if a.data[d].nEntries > 1 {
      FilledPrefix(t.arrays, t.data[d].entryArrayOffset, a.data[d].nEntries - 1, t.data[d].nEntries - 1);
    }
  }

  lemma CountedPrefix(j: Journal, d: uint64, n: nat)
    requires Published(j) && d in j.data && 0 < n <= j.data[d].nEntries
    ensures |PostingList(j, d)| == j.data[d].nEntries && PostingList(j, d)[0] == j.data[d].entryOffset
    ensures PostingList(j, d)[1..n] == ChainItems(j.arrays, j.data[d].entryArrayOffset, n - 1)
  {
    CountedFilled(j, d);
    FilledPrefix(j.arrays, j.data[d].entryArrayOffset, n - 1, j.data[d].nEntries - 1);
  }
}
