/** What the strict index check promises about a journal's posting lists, stated without any
    walk: every list holds exactly the entries it should, in order, in arrays of its own. */
module StrictSpec {
  import opened JournalGraph
  import opened EntryArrays

  /** A list stored in ENTRY_ARRAY objects: the global one, or one that follows a DATA
      object's inline entry. */
  datatype Owner = Global | Of(data: uint64)

  ghost predicate IsOwner(j: Journal, o: Owner) {
    o.Of? ==> o.data in j.data
  }

  ghost function Head(j: Journal, o: Owner): uint64 {
    if o.Global? then j.header.entryArrayOffset
    else if o.data in j.data then j.data[o.data].entryArrayOffset else 0
  }

  ghost function Total(j: Journal, o: Owner): nat {
    if o.Global? then j.header.nEntries
    else if o.data in j.data && j.data[o.data].nEntries > 0 then j.data[o.data].nEntries - 1 else 0
  }

  /** The arrays that the first `used` slots of an owner's list occupy. */
  ghost function Opened(j: Journal, o: Owner, used: nat): seq<uint64> {
    ChainArrays(j.arrays, Head(j, o), used)
  }

  /** A chain of arrays holding exactly `total` postings: array offsets increase, the last
      array ends the chain, its unused slots are zero and the tail hint points at it. */
  ghost predicate ChainShape(arrays: Arrays, head: uint64, total: nat, hinted: bool, tailOffset: uint64, tailUsed: uint64) {
    if total == 0 then head == 0 && (hinted ==> tailOffset == 0 && tailUsed == 0)
    else
      && Complete(arrays, head, total)
      && Ascending(ChainArrays(arrays, head, total))
      && TailShape(arrays, Locate(arrays, head, total), hinted, tailOffset, tailUsed)
  }

  ghost predicate TailShape(arrays: Arrays, tail: Place, hinted: bool, tailOffset: uint64, tailUsed: uint64) {
    && tail.at in arrays && arrays[tail.at].next == 0
    && (forall k :: tail.index <= k < |arrays[tail.at].items| ==> arrays[tail.at].items[k] == 0)
    && (hinted ==> tailOffset == tail.at && tailUsed == tail.index)
  }

  ghost function GlobalList(j: Journal): seq<uint64> {
    ChainItems(j.arrays, j.header.entryArrayOffset, j.header.nEntries)
  }

  ghost predicate Contains(j: Journal, e: uint64, d: uint64) {
    e in j.entries && d in j.entries[e].items
  }

  /** The stored list of an owner has the shape its counters and tail hint announce. */
  ghost predicate Shaped(j: Journal, o: Owner) {
    ChainShape(j.arrays, Head(j, o), Total(j, o), Hinted(j, o), TailOffset(j, o), TailUsed(j, o))
  }

  ghost function Hinted(j: Journal, o: Owner): bool {
    if o.Global? then j.header.hasTailArrayHint else j.header.compact
  }

  ghost function TailOffset(j: Journal, o: Owner): uint64 {
    if o.Global? then j.header.tailArrayOffset
    else if o.data in j.data then j.data[o.data].tailArrayOffset else 0
  }

  ghost function TailUsed(j: Journal, o: Owner): uint64 {
    if o.Global? then j.header.tailArrayUsed
    else if o.data in j.data then j.data[o.data].tailArrayUsed else 0
  }

  /** The global array lists every ENTRY once, in ascending order. */
  ghost predicate GlobalListed(j: Journal) {
    Shaped(j, Global) && Ascending(GlobalList(j)) && Elements(GlobalList(j)) == j.entries.Keys
  }

  /** A DATA object's inline entry and array chain are the ascending ENTRYs containing it. */
  ghost predicate DataListed(j: Journal, d: uint64)
    requires d in j.data
  {
    && j.data[d].nEntries > 0 && Shaped(j, Of(d))
    && Ascending(PostingList(j, d))
    && (forall e :: e in PostingList(j, d) <==> Contains(j, e, d))
  }

  ghost predicate AllDataListed(j: Journal) {
    forall d :: d in j.data ==> DataListed(j, d)
  }

  ghost predicate ReferencesResolve(j: Journal) {
    forall e, d :: Contains(j, e, d) ==> d in j.data
  }

  /** No ENTRY_ARRAY belongs to two lists. */
  ghost predicate ArraysApart(j: Journal) {
    forall o, o', a :: IsOwner(j, o) && IsOwner(j, o') && a in Opened(j, o, Total(j, o)) && a in Opened(j, o', Total(j, o')) ==> o == o'
  }

  /** Every ENTRY_ARRAY belongs to some list. */
  ghost predicate ArraysOwned(j: Journal) {
    forall a :: a in j.arrays ==> exists o :: IsOwner(j, o) && a in Opened(j, o, Total(j, o))
  }

  ghost predicate StrictPostings(j: Journal) {
    GlobalListed(j) && ReferencesResolve(j) && AllDataListed(j) && ArraysApart(j) && ArraysOwned(j)
  }

  /** What parsing the objects has established before the index is checked
      (go/journal/verify_graph.go:497-554, 658-683, 711-747). */
  ghost predicate Parsed(j: Journal) {
    && NonEmptyArrays(j.arrays)
    && 0 !in j.entries && 0 !in j.data && 0 !in j.fields
    && |j.entries| == j.header.nEntries
    && (forall d :: d in j.data ==>
          && (j.data[d].entryOffset == 0 <==> j.data[d].nEntries == 0)
          && (j.data[d].nEntries < 2 <==> j.data[d].entryArrayOffset == 0))
  }

  // ----- posting lists as filtered global lists

  /** The entries of `list` that contain `d`, in list order. */
  ghost function Filtered(j: Journal, list: seq<uint64>, d: uint64): seq<uint64> {
    if list == [] then []
    else
      var n := |list| - 1;
      Filtered(j, list[..n], d) + if Contains(j, list[n], d) then [list[n]] else []
  }

  lemma {:induction false} FilteredMembers(j: Journal, list: seq<uint64>, d: uint64)
    ensures forall e :: e in Filtered(j, list, d) <==> e in list && Contains(j, e, d)
    ensures Ascending(list) ==> Ascending(Filtered(j, list, d))
  {
    if list != [] {
      var n := |list| - 1;
      FilteredMembers(j, list[..n], d);
      assert list == list[..n] + [list[n]];
      if Ascending(list) {
        AscendingInit(list, n);
        AscendingAppend(Filtered(j, list[..n], d), list[n]);
      }
    }
  }

  lemma {:induction false} FilteredPrefix(j: Journal, list: seq<uint64>, k: nat, d: uint64)
    requires k <= |list|
    ensures Filtered(j, list[..k], d) <= Filtered(j, list, d)
    decreases |list|
  {
    if k == |list| {
      assert list[..k] == list;
    } else {
      var n := |list| - 1;
      FilteredPrefix(j, list[..n], k, d);
      assert list[..n][..k] == list[..k];
    }
  }

  /** In a strictly indexed journal a posting list is the global list, filtered. */
  lemma PostingsAreFiltered(j: Journal, d: uint64)
    requires d in j.data && GlobalListed(j) && DataListed(j, d)
    ensures PostingList(j, d) == Filtered(j, GlobalList(j), d)
  {
    FilteredMembers(j, GlobalList(j), d);
    forall e ensures e in PostingList(j, d) <==> e in Filtered(j, GlobalList(j), d) {
      if Contains(j, e, d) {
        assert e in Elements(GlobalList(j));
      }
    }
    AscendingUnique(PostingList(j, d), Filtered(j, GlobalList(j), d));
  }

  lemma PostingListLength(j: Journal, d: uint64)
    requires d in j.data && j.data[d].nEntries > 0 && Shaped(j, Of(d))
    ensures |PostingList(j, d)| == j.data[d].nEntries
  {
  }

  /** The properties the reverse pass meets step by step. */
  ghost predicate PassIndex(j: Journal) {
    AllShaped(j) && ArraysApart(j) && GlobalOrdered(j) && PostingsMatch(j) && ReferencesResolve(j)
  }

  ghost predicate AllShaped(j: Journal) {
    forall o :: IsOwner(j, o) ==> Shaped(j, o)
  }

  ghost predicate GlobalOrdered(j: Journal) {
    Ascending(GlobalList(j)) && Elements(GlobalList(j)) == j.entries.Keys
  }

  ghost predicate PostingsMatch(j: Journal) {
    forall d :: d in j.data ==> j.data[d].nEntries > 0 && PostingList(j, d) == Filtered(j, GlobalList(j), d)
  }

  lemma ListedThenMatch(j: Journal)
    requires GlobalListed(j) && AllDataListed(j)
    ensures AllShaped(j) && GlobalOrdered(j) && PostingsMatch(j)
  {
    forall d | d in j.data ensures j.data[d].nEntries > 0 && PostingList(j, d) == Filtered(j, GlobalList(j), d) {
      assert DataListed(j, d);
      PostingsAreFiltered(j, d);
    }
    forall o | IsOwner(j, o) ensures Shaped(j, o) {
      if o.Of? { assert DataListed(j, o.data); }
    }
  }

  lemma MatchThenListed(j: Journal)
    requires AllShaped(j) && GlobalOrdered(j) && PostingsMatch(j)
    ensures GlobalListed(j) && AllDataListed(j)
  {
    forall d | d in j.data ensures DataListed(j, d) {
      assert IsOwner(j, Of(d));
      FilteredMembers(j, GlobalList(j), d);
      forall e ensures e in PostingList(j, d) <==> Contains(j, e, d) {
        assert Contains(j, e, d) ==> e in Elements(GlobalList(j));
      }
    }
    assert IsOwner(j, Global);
  }

  lemma StrictIsPassIndex(j: Journal)
    ensures StrictPostings(j) <==> PassIndex(j) && ArraysOwned(j)
  {
    if GlobalListed(j) && AllDataListed(j) { ListedThenMatch(j); }
    if AllShaped(j) && GlobalOrdered(j) && PostingsMatch(j) { MatchThenListed(j); }
  }

  /** An ascending list of as many entries as there are lists all of them. */
  lemma {:induction false} AscendingCovers(list: seq<uint64>, all: set<uint64>)
    requires Ascending(list) && Elements(list) <= all && |list| == |all|
    ensures Elements(list) == all
  {
    AscendingSize(list);
    if Elements(list) != all {
      var x :| x in all && x !in Elements(list);
      assert Elements(list) <= all - {x};
      SubsetSize(Elements(list), all - {x});
    }
  }

  lemma {:induction false} AscendingSize(list: seq<uint64>)
    requires Ascending(list)
    ensures |Elements(list)| == |list|
  {
    if list != [] {
      AscendingTail(list);
      AscendingSize(list[1..]);
      assert Elements(list) == Elements(list[1..]) + {list[0]};
    }
  }
}
