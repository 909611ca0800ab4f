/** Linking a DATA object to a new entry, store by store (go/journal/writer_arrays.go:212-272, 406-444). */
module PostingLink {
  import opened JournalGraph
  import opened SnapshotGrowth
  import opened SnapshotWrites
  import G = ChainGuard

  /** Walking `n` slots from `head`, array by array, leads to slot `r` of the array at `off`. */
  ghost predicate Reach(arrays: Arrays, head: uint64, n: nat, off: uint64, r: nat)
    decreases n
  {
    || (head == off && n == r)
    || (head in arrays && 0 < |arrays[head].items| <= n && arrays[head].next in arrays
        && Reach(arrays, arrays[head].next, n - |arrays[head].items|, off, r))
  }

  /** The slot after the first `n` is free, or the chain ends right before it. */
  ghost predicate Room(arrays: Arrays, head: uint64, n: nat)
    decreases n
  {
    && head in arrays && arrays[head].items != []
    && var items, next := arrays[head].items, arrays[head].next;
       if n < |items| then items[n] == 0
       else if next == 0 then n == |items|
       else Room(arrays, next, n - |items|)
  }

  // ----- a chain with room after its filled slots has no cycle

  /** The arrays visited: their slots are all filled, and every link leads to one of them. */
  ghost predicate Cyclic(arrays: Arrays, history: seq<uint64>) {
    forall x :: x in history ==>
      x in arrays && arrays[x].items != [] && 0 !in arrays[x].items && arrays[x].next != 0 && arrays[x].next in history
  }

  lemma {:induction false} NoRoomOnCycle(arrays: Arrays, history: seq<uint64>, off: uint64, r: nat)
    requires Cyclic(arrays, history) && off in history
    ensures !Room(arrays, off, r)
    decreases r
  {
    var items := arrays[off].items;
    if r < |items| {
      assert items[r] in items;
    } else {
      NoRoomOnCycle(arrays, history, arrays[off].next, r - |items|);
    }
  }

  /** A walk has come to `off` with `r` slots to go; `history` is what it visited, `highest` the
      greatest of that. */
  ghost predicate OnTheWay(arrays: Arrays, head: uint64, n: nat, off: uint64, r: nat, history: seq<uint64>, highest: uint64) {
    && Room(arrays, off, r) && Filled(arrays, off, r) && G.History(arrays, head, off, history) && |history| + r <= n + 1
    && (forall i :: 0 <= i < |history| ==> history[i] <= highest)
    && (forall i :: 0 <= i < |history| - 1 ==> arrays[history[i]].items != [] && 0 !in arrays[history[i]].items && arrays[history[i]].next != 0)
  }

  lemma NextUnvisited(arrays: Arrays, head: uint64, n: nat, off: uint64, r: nat, history: seq<uint64>, highest: uint64)
    requires OnTheWay(arrays, head, n, off, r, history, highest)
    requires off in arrays && r >= |arrays[off].items| > 0 && 0 !in arrays[off].items && arrays[off].next != 0
    ensures arrays[off].next !in history
  {
    if arrays[off].next in history {
      forall x | x in history ensures x in arrays && arrays[x].items != [] && 0 !in arrays[x].items && arrays[x].next != 0 && arrays[x].next in history {
        var i :| 0 <= i < |history| && history[i] == x;
        if i < |history| - 1 { assert history[i + 1] == arrays[history[i]].next; }
      }
      NoRoomOnCycle(arrays, history, off, r);
    }
  }

  lemma WayOn(arrays: Arrays, head: uint64, n: nat, off: uint64, r: nat, history: seq<uint64>, highest: uint64)
    requires OnTheWay(arrays, head, n, off, r, history, highest)
    requires off in arrays && r >= |arrays[off].items| && arrays[off].next != 0
    ensures var next, left := arrays[off].next, r - |arrays[off].items|;
            && next in arrays && next !in history && |arrays[off].items| > 0
            && OnTheWay(arrays, head, n, next, left, history + [next], if next > highest then next else highest)
  {
    FilledItems(arrays, off, r);
    NextUnvisited(arrays, head, n, off, r, history, highest);
    var next := arrays[off].next;
    var longer := history + [next];
    assert forall i, k :: 0 <= i < k < |longer| ==> longer[i] != longer[k];
  }

  /** Of a chain filled past its first array, that array is filled, and so is the rest. */
  lemma FilledItems(arrays: Arrays, off: uint64, r: nat)
    requires off in arrays && arrays[off].items != [] && r >= |arrays[off].items| && Filled(arrays, off, r)
    ensures 0 !in arrays[off].items && Filled(arrays, arrays[off].next, r - |arrays[off].items|)
  {
    var items := arrays[off].items;
    if r == |items| {
      assert ChainItems(arrays, off, r) == items;
    } else {
      assert ChainItems(arrays, off, r) == items + ChainItems(arrays, arrays[off].next, r - |items|);
    }
  }

  lemma {:induction false} ReachKept(a: Arrays, b: Arrays, head: uint64, n: nat, off: uint64, r: nat)
    requires Reach(a, head, n, off, r) && ArraysGrow(a, b)
    ensures Reach(b, head, n, off, r)
    decreases n
  {
    if !(head == off && n == r) {
      ReachKept(a, b, a[head].next, n - |a[head].items|, off, r);
    }
  }

  lemma {:induction false} ReachOn(arrays: Arrays, head: uint64, n: nat, off: uint64, r: nat)
    requires Reach(arrays, head, n, off, r) && off in arrays && 0 < |arrays[off].items| <= r && arrays[off].next in arrays
    ensures Reach(arrays, head, n, arrays[off].next, r - |arrays[off].items|)
    decreases n
  {
    if !(head == off && n == r) {
      ReachOn(arrays, arrays[head].next, n - |arrays[head].items|, off, r);
    }
  }

  /** The slot a walk leads to holds the next posting of the chain. */
  lemma {:induction false} NextPosting(arrays: Arrays, head: uint64, n: nat, off: uint64, r: nat)
    requires Reach(arrays, head, n, off, r) && off in arrays && r < |arrays[off].items|
    ensures ChainItems(arrays, head, n + 1) == ChainItems(arrays, head, n) + [arrays[off].items[r]]
    decreases n
  {
    if !(head == off && n == r) {
      var items, next := arrays[head].items, arrays[head].next;
      NextPosting(arrays, next, n - |items|, off, r);
      assert ChainItems(arrays, head, n + 1) == items + ChainItems(arrays, next, n - |items| + 1);
      if n == |items| {
        assert ChainItems(arrays, next, 0) == [] && items[..n] == items;
      }
    }
  }

  /** Storing an entry in the slot after the first `n` appends it to the chain. */
  lemma StoredNext(a: Arrays, b: Arrays, head: uint64, n: nat, off: uint64, r: nat)
    requires Filled(a, head, n) && ArraysGrow(a, b) && Reach(b, head, n, off, r)
    requires off in b && r < |b[off].items|
    ensures ChainItems(b, head, n + 1) == ChainItems(a, head, n) + [b[off].items[r]]
  {
    ChainKept(a, b, head, n);
    NextPosting(b, head, n, off, r);
  }

  lemma ChainExtended(a: Arrays, b: Arrays, head: uint64, n: nat, off: uint64, r: nat, at: uint64)
    requires Filled(a, head, n) && ArraysGrow(a, b) && off in a && Reach(a, head, n, off, r) && 0 < r == |a[off].items|
    requires at in b && b[at].items != [] && b[off].next == at
    ensures ChainItems(b, head, n + 1) == ChainItems(a, head, n) + [b[at].items[0]]
  {
    ReachKept(a, b, head, n, off, r);
    ReachOn(b, head, n, off, r);
    StoredNext(a, b, head, n, at, 0);
  }

  // ----- runs of stores

  ghost function After(s: State, stores: seq<Store>): State
    requires LegalRun(s, stores)
    decreases |stores|
  {
    if stores == [] then s else After(Apply(s, stores[0]), stores[1..])
  }

  lemma {:induction false} RunExtended(s: State, stores: seq<Store>, store: Store)
    requires LegalRun(s, stores) && Legal(After(s, stores), store)
    ensures LegalRun(s, stores + [store]) && After(s, stores + [store]) == Apply(After(s, stores), store)
    decreases |stores|
  {
    if stores == [] {
      assert LegalRun(Apply(s, store), []);
      assert (stores + [store])[1..] == [];
    } else {
      RunExtended(Apply(s, stores[0]), stores[1..], store);
      assert (stores + [store])[1..] == stores[1..] + [store];
    }
  }

  class PostingWriter {
    var s: State
    ghost var origin: State
    ghost var stores: seq<Store>

    constructor (s: State)
      ensures this.s == origin == s && stores == [] && Valid()
    {
      this.s, origin, stores := s, s, [];
    }

    /** The file is what a run of legal stores made of it. */
    ghost predicate Valid()
      reads this
    {
      LegalRun(origin, stores) && s == After(origin, stores)
    }

    method Make(store: Store)
      requires Valid() && Legal(s, store)
      modifies this
      ensures Valid() && origin == old(origin) && s == Apply(old(s), store) && stores == old(stores) + [store]
    {
      RunExtended(origin, stores, store);
      s := Apply(s, store);
      stores := stores + [store];
    }

    /** The entry being published is newer than the postings of `d`, and there is room for it. */
    ghost predicate Linkable(d: uint64)
      reads this
    {
      var j := s.journal;
      && d in j.data && Published(j) && Bounded(s) && s.entry != 0 && j.data[d].nEntries < MAX_U64
      && (forall x :: x in PostingList(j, d) ==> x < s.entry)
      && match j.data[d].nEntries {
           case 0 => j.data[d].entryOffset == 0
           case 1 => j.data[d].entryArrayOffset == 0
           case n => Room(j.arrays, j.data[d].entryArrayOffset, n - 1)
         }
    }

    method LinkFirst(d: uint64)
      requires Valid() && Linkable(d) && s.journal.data[d].nEntries == 0
      modifies this
      ensures Valid() && origin == old(origin) && old(stores) <= stores
      ensures d in s.journal.data && PostingList(s.journal, d) == [old(s.entry)] && s.journal.data[d].nEntries == 1
    {
      Make(SetFirst(d));
      Make(SetCount(d));
    }

    method LinkSecond(d: uint64, at: uint64)
      requires Valid() && Linkable(d) && s.journal.data[d].nEntries == 1 && at > s.top
      modifies this
      ensures Valid() && origin == old(origin) && old(stores) <= stores
      ensures d in s.journal.data && PostingList(s.journal, d) == old(PostingList(s.journal, d)) + [old(s.entry)] && s.journal.data[d].nEntries == 2
    {
      ghost var first := s.journal.data[d].entryOffset;
      assert PostingList(s.journal, d) == [first];
      assert first in PostingList(s.journal, d);
      Make(NewArray(at, 4));
      Make(SetSlot(at, 0));
      Make(SetHead(d, at));
      assert Postings(s.journal.arrays, first, at, 2) == [first, s.entry];
      Make(SetCount(d));
    }

    /** Walks to the slot after the first `n` of a chain. Where a link does not rise above all
        arrays visited, the source looks for a revisit; on such a chain there never is one. */
    method FindSlot(head: uint64, n: nat) returns (ok: bool, off: uint64, r: nat)
      requires Room(s.journal.arrays, head, n) && Filled(s.journal.arrays, head, n) && n < MAX_U64 - 1
      ensures ok && off in s.journal.arrays && Reach(s.journal.arrays, head, n, off, r) && Room(s.journal.arrays, off, r)
      ensures r < |s.journal.arrays[off].items| || (r == |s.journal.arrays[off].items| && s.journal.arrays[off].next == 0)
    {
      var arrays := s.journal.arrays;
      ok, off, r := true, head, n;
      var highest := head;
      ghost var history := [head];
      while r >= |arrays[off].items| && arrays[off].next != 0
        invariant ok && off in arrays && Reach(arrays, head, n, off, r)
        invariant OnTheWay(arrays, head, n, off, r, history, highest)
        decreases r
      {
        WayOn(arrays, head, n, off, r, history, highest);
        ReachOn(arrays, head, n, off, r);
        var next := arrays[off].next;
        if next <= highest {
          var revisit := G.RejectArrayRevisit(arrays, head, off, next, history);
          if revisit.Err? { return false, off, r; }
        } else {
          highest := next;
        }
        off, r, history := next, r - |arrays[off].items|, history + [next];
      }
    }

    method StoreInSlot(head: uint64, n: nat, off: uint64, r: nat)
      requires Valid() && s.entry != 0 && Filled(s.journal.arrays, head, n) && off in s.journal.arrays
      requires Reach(s.journal.arrays, head, n, off, r) && Room(s.journal.arrays, off, r) && r < |s.journal.arrays[off].items|
      modifies this
      ensures Valid() && origin == old(origin) && old(stores) <= stores && s.entry == old(s.entry)
      ensures s.journal.data == old(s.journal.data)
      ensures ChainItems(s.journal.arrays, head, n + 1) == old(ChainItems(s.journal.arrays, head, n)) + [s.entry]
    {
      ghost var a := s.journal.arrays;
      Make(SetSlot(off, r));
      ReachKept(a, s.journal.arrays, head, n, off, r);
      StoredNext(a, s.journal.arrays, head, n, off, r);
    }

    method StoreInNewArray(head: uint64, n: nat, off: uint64, r: nat, at: uint64, capacity: nat)
      requires Valid() && Bounded(s) && s.entry != 0 && at > s.top && capacity > 0 && Filled(s.journal.arrays, head, n)
      requires off in s.journal.arrays && Reach(s.journal.arrays, head, n, off, r)
      requires 0 < r == |s.journal.arrays[off].items| && s.journal.arrays[off].next == 0
      modifies this
      ensures Valid() && origin == old(origin) && old(stores) <= stores && s.entry == old(s.entry)
      ensures s.journal.data == old(s.journal.data)
      ensures ChainItems(s.journal.arrays, head, n + 1) == old(ChainItems(s.journal.arrays, head, n)) + [s.entry]
    {
      ghost var a := s.journal.arrays;
      Make(NewArray(at, capacity));
      Make(SetNext(off, at));
      Make(SetSlot(at, 0));
      ChainExtended(a, s.journal.arrays, head, n, off, r, at);
    }

    /** Stores the entry after the first `n` postings of a chain, whichever way its links lead. */
    method AppendToChain(head: uint64, n: nat, at: uint64, capacity: nat) returns (ok: bool)
      requires Valid() && Bounded(s) && s.entry != 0 && at > s.top && capacity > 0
      requires Room(s.journal.arrays, head, n) && Filled(s.journal.arrays, head, n) && n < MAX_U64 - 1
      modifies this
      ensures ok && Valid() && origin == old(origin) && old(stores) <= stores && s.entry == old(s.entry)
      ensures s.journal.data == old(s.journal.data)
      ensures ChainItems(s.journal.arrays, head, n + 1) == old(ChainItems(s.journal.arrays, head, n)) + [s.entry]
    {
      var off: uint64, r: nat;
      ok, off, r := FindSlot(head, n);
      if r < |s.journal.arrays[off].items| {
        StoreInSlot(head, n, off, r);
      } else {
        StoreInNewArray(head, n, off, r, at, capacity);
      }
    }

    method LinkLater(d: uint64, at: uint64, capacity: nat)
      requires Valid() && Linkable(d) && s.journal.data[d].nEntries >= 2 && at > s.top && capacity > 0
      modifies this
      ensures Valid() && origin == old(origin) && old(stores) <= stores
      ensures d in s.journal.data && PostingList(s.journal, d) == old(PostingList(s.journal, d)) + [old(s.entry)]
      ensures s.journal.data[d].nEntries == old(s.journal.data[d].nEntries) + 1
    {
      ghost var p, entry := PostingList(s.journal, d), s.entry;
      var h := s.journal.data[d];
      CountedFilled(s.journal, d);
      var _ := AppendToChain(h.entryArrayOffset, h.nEntries - 1, at, capacity);
      assert Postings(s.journal.arrays, h.entryOffset, h.entryArrayOffset, h.nEntries + 1) == p + [entry];
      AscendingAppend(p, entry);
      Make(SetCount(d));
    }

    /** Appends the entry being published to a DATA object's postings. All stores are legal, so at
        no moment does a count cover a posting that is not there. */
    method LinkDataToEntry(d: uint64, at: uint64, capacity: nat)
      requires Valid() && Linkable(d) && at > s.top && capacity > 0
      modifies this
      ensures Valid() && origin == old(origin) && old(stores) <= stores
      ensures d in s.journal.data && PostingList(s.journal, d) == old(PostingList(s.journal, d)) + [old(s.entry)]
      ensures s.journal.data[d].nEntries == old(s.journal.data[d].nEntries) + 1
    {
      if s.journal.data[d].nEntries == 0 {
        LinkFirst(d);
      } else if s.journal.data[d].nEntries == 1 {
        LinkSecond(d, at);
      } else {
        LinkLater(d, at, capacity);
      }
    }
  }
}
