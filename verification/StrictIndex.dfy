/** The strict posting check (go/journal/verify_index.go:62-232): one pass over the global
    list moves one cursor per DATA object, and accepts exactly the journals whose posting
    lists are as `StrictSpec.StrictPostings` says. */
module StrictIndex {
  import opened JournalGraph
  import opened EntryArrays
  import opened StrictSpec

  datatype IndexCursor = IndexCursor(at: uint64, index: nat, used: nat, total: nat, last: uint64)

  type Cursors = map<uint64, IndexCursor>

  // ----- what the walk has consumed

  /** The cursor stands after `u` slots of the owner's list. */
  ghost predicate Synced(j: Journal, o: Owner, c: IndexCursor, u: nat) {
    && Complete(j.arrays, Head(j, o), u)
    && Place(c.at, c.index) == Locate(j.arrays, Head(j, o), u)
    && Ascending(Opened(j, o, u))
  }

  /** The next slot exists, in an array nobody else has opened, and holds a later entry. */
  ghost predicate NextOk(j: Journal, claimed: set<uint64>, o: Owner, c: IndexCursor, u: nat) {
    && c.used < c.total
    && Complete(j.arrays, Head(j, o), u + 1)
    && Ascending(Opened(j, o, u + 1))
    && (|Opened(j, o, u)| < |Opened(j, o, u + 1)| ==> Opened(j, o, u + 1)[|Opened(j, o, u)|] !in claimed)
    && var item := ChainItems(j.arrays, Head(j, o), u + 1)[u];
       item > c.last && item in j.entries
  }

  lemma OpenNext(j: Journal, o: Owner, c: IndexCursor, u: nat)
    requires NonEmptyArrays(j.arrays) && Synced(j, o, c, u)
    ensures var p := NextPlace(j.arrays, Head(j, o), u);
            && (p.at in j.arrays && p.index == 0 && u > 0 ==>
                  (Ascending(Opened(j, o, u + 1)) <==> p.at > c.at))
            && (p.at in j.arrays && (p.index > 0 || u == 0) ==> Ascending(Opened(j, o, u + 1)))
  {
    var p := NextPlace(j.arrays, Head(j, o), u);
    TakeSlot(j.arrays, Head(j, o), u);
    if u > 0 {
      LocateInBounds(j.arrays, Head(j, o), u);
      var opened' := Opened(j, o, u);
      assert opened'[|opened'|-1] == c.at;
      if p.at in j.arrays && p.index == 0 {
        var longer := Opened(j, o, u + 1);
        assert longer == opened' + [p.at];
        assert longer[|opened'|-1] == c.at && longer[|opened'|] == p.at;
      }
    }
  }

  ghost function NewArray(p: Place): set<uint64> {
    if p.index == 0 then {p.at} else {}
  }

  /** The array of the next slot exists, and if it is a new one it lies further on and nobody has it. */
  ghost predicate MayOpen(j: Journal, claimed: set<uint64>, c: IndexCursor, u: nat, p: Place) {
    c.used < c.total && p.at in j.arrays && (p.index == 0 ==> p.at !in claimed && (u > 0 ==> p.at > c.at))
  }

  /** What taking the next slot comes to, in terms of its place. */
  lemma NextSlot(j: Journal, claimed: set<uint64>, o: Owner, c: IndexCursor, u: nat)
    requires NonEmptyArrays(j.arrays) && 0 !in j.entries && Synced(j, o, c, u)
    ensures var p := NextPlace(j.arrays, Head(j, o), u);
            if !MayOpen(j, claimed, c, u, p) then !NextOk(j, claimed, o, c, u)
            else
              && p.index < |j.arrays[p.at].items|
              && var item := j.arrays[p.at].items[p.index];
                 && (NextOk(j, claimed, o, c, u) <==> item > c.last && item in j.entries)
                 && Synced(j, o, IndexCursor(p.at, p.index + 1, c.used + 1, c.total, item), u + 1)
                 && ChainItems(j.arrays, Head(j, o), u + 1) == ChainItems(j.arrays, Head(j, o), u) + [item]
                 && Opened(j, o, u) <= Opened(j, o, u + 1) && Elements(Opened(j, o, u + 1)[|Opened(j, o, u)|..]) == NewArray(p)
  {
    TakeSlot(j.arrays, Head(j, o), u);
    OpenNext(j, o, c, u);
  }

  // ----- which arrays are taken

  /** How many array slots of each list the cursors have consumed; a DATA object's first
      posting is inline. */
  ghost function UseOf(o: Owner, k: nat, cursors: Cursors): nat {
    if o.Global? then k
    else if o.data in cursors && cursors[o.data].used > 0 then cursors[o.data].used - 1 else 0
  }

  ghost predicate Claims(j: Journal, claimed: set<uint64>, k: nat, cursors: Cursors) {
    && (forall a :: a in claimed ==> exists o :: IsOwner(j, o) && a in Opened(j, o, UseOf(o, k, cursors)))
    && (forall o, a :: IsOwner(j, o) && a in Opened(j, o, UseOf(o, k, cursors)) ==> a in claimed)
    && (forall o, o', a :: IsOwner(j, o) && IsOwner(j, o') && a in Opened(j, o, UseOf(o, k, cursors)) && a in Opened(j, o', UseOf(o', k, cursors)) ==> o == o')
  }

  /** One list goes on by a slot, and what it opens is claimed. */
  ghost predicate OneOpens(j: Journal, claimed: set<uint64>, k: nat, cursors: Cursors, o: Owner, k': nat, cursors': Cursors, claimed': set<uint64>) {
    && IsOwner(j, o)
    && (forall o' :: o' != o ==> UseOf(o', k', cursors') == UseOf(o', k, cursors))
    && var u := UseOf(o, k, cursors);
       && UseOf(o, k', cursors') == u + 1
       && Opened(j, o, u) <= Opened(j, o, u + 1) && |Opened(j, o, u + 1)| <= |Opened(j, o, u)| + 1
       && (|Opened(j, o, u)| < |Opened(j, o, u + 1)| ==> Opened(j, o, u + 1)[|Opened(j, o, u)|] !in claimed)
       && claimed' == claimed + Elements(Opened(j, o, u + 1)[|Opened(j, o, u)|..])
  }

  /** What the list has opened after that: as before, and what is newly claimed. */
  lemma NowOpened(j: Journal, claimed: set<uint64>, k: nat, cursors: Cursors, o: Owner, k': nat, cursors': Cursors, claimed': set<uint64>)
    requires OneOpens(j, claimed, k, cursors, o, k', cursors', claimed')
    ensures forall a :: a in Opened(j, o, UseOf(o, k', cursors')) <==> a in Opened(j, o, UseOf(o, k, cursors)) || (a in claimed' && a !in claimed)
  {
    var u := UseOf(o, k, cursors);
    var old', new' := Opened(j, o, u), Opened(j, o, u + 1);
    assert new' == old' + new'[|old'|..];
    assert forall a :: a in Elements(new'[|old'|..]) ==> a == new'[|old'|] && a !in claimed;
  }

  /** Opening the next array of one list keeps the lists apart. */
  lemma ClaimsGrow(j: Journal, claimed: set<uint64>, k: nat, cursors: Cursors, o: Owner, k': nat, cursors': Cursors, claimed': set<uint64>)
    requires Claims(j, claimed, k, cursors) && OneOpens(j, claimed, k, cursors, o, k', cursors', claimed')
    ensures Claims(j, claimed', k', cursors')
  {
    NowOpened(j, claimed, k, cursors, o, k', cursors', claimed');
  }

  // ----- what a well-formed index guarantees to the walk

  lemma ShapedChain(j: Journal, o: Owner, u: nat)
    requires Shaped(j, o) && u <= Total(j, o)
    ensures Complete(j.arrays, Head(j, o), Total(j, o)) && Complete(j.arrays, Head(j, o), u)
    ensures Opened(j, o, u) <= Opened(j, o, Total(j, o))
    ensures Ascending(Opened(j, o, Total(j, o)))
    ensures ChainItems(j.arrays, Head(j, o), u) == ChainItems(j.arrays, Head(j, o), Total(j, o))[..u]
  {
    ChainPrefix(j.arrays, Head(j, o), u, Total(j, o));
  }

  /** The array a list opens next has not been opened by any list. */
  lemma NextArrayUnclaimed(j: Journal, claimed: set<uint64>, k: nat, cursors: Cursors, o: Owner, b: uint64)
    requires AllShaped(j) && ArraysApart(j) && Claims(j, claimed, k, cursors) && IsOwner(j, o)
    requires forall o' :: IsOwner(j, o') ==> UseOf(o', k, cursors) <= Total(j, o')
    requires b in Opened(j, o, Total(j, o)) && b !in Opened(j, o, UseOf(o, k, cursors))
    ensures b !in claimed
  {
    if b in claimed {
      var o' :| IsOwner(j, o') && b in Opened(j, o', UseOf(o', k, cursors));
      ShapedChain(j, o', UseOf(o', k, cursors));
    }
  }

  lemma ShapedNextOk(j: Journal, claimed: set<uint64>, k: nat, cursors: Cursors, o: Owner, c: IndexCursor, u: nat)
    requires AllShaped(j) && ArraysApart(j) && Claims(j, claimed, k, cursors) && IsOwner(j, o)
    requires forall o' :: IsOwner(j, o') ==> UseOf(o', k, cursors) <= Total(j, o')
    requires u == UseOf(o, k, cursors) < Total(j, o) && c.used < c.total
    requires var list := ChainItems(j.arrays, Head(j, o), Total(j, o));
             u < |list| ==> list[u] > c.last && list[u] in j.entries
    ensures NextOk(j, claimed, o, c, u)
  {
    ShapedChain(j, o, u);
    ShapedChain(j, o, u + 1);
    var before, after, whole := Opened(j, o, u), Opened(j, o, u + 1), Opened(j, o, Total(j, o));
    assert forall i :: 0 <= i < |after| ==> after[i] == whole[i];
    if |before| < |after| {
      var b := after[|before|];
      assert b == whole[|before|];
      assert forall i :: 0 <= i < |before| ==> before[i] == whole[i];
      NextArrayUnclaimed(j, claimed, k, cursors, o, b);
    }
  }

  // ----- the state of the reverse pass

  /** The postings of `d` among the entries in `done` and, when its item has been seen, `off`. */
  ghost function Posted(j: Journal, done: seq<uint64>, off: uint64, seen: seq<uint64>, d: uint64): seq<uint64> {
    Filtered(j, done, d) + if d in seen then [off] else []
  }

  ghost function ListPrefix(j: Journal, d: uint64, count: nat): seq<uint64>
    requires d in j.data
  {
    Postings(j.arrays, j.data[d].entryOffset, j.data[d].entryArrayOffset, count)
  }

  /** The cursor of `d` has consumed exactly `posted`. */
  ghost predicate CursorAt(j: Journal, c: IndexCursor, d: uint64, posted: seq<uint64>)
    requires d in j.data
  {
    && c.total == j.data[d].nEntries && c.used == |posted| <= c.total
    && posted == ListPrefix(j, d, |posted|)
    && c.last == (if posted == [] then j.data[d].entryOffset else posted[|posted|-1])
    && Synced(j, Of(d), c, if posted == [] then 0 else |posted| - 1)
  }

  ghost predicate CursorFits(j: Journal, cursors: Cursors, done: seq<uint64>, off: uint64, seen: seq<uint64>, d: uint64) {
    d in j.data && d in cursors && CursorAt(j, cursors[d], d, Posted(j, done, off, seen, d))
  }

  ghost predicate CursorsAt(j: Journal, cursors: Cursors, done: seq<uint64>, off: uint64, seen: seq<uint64>) {
    && cursors.Keys == j.data.Keys
    && (forall d {:trigger CursorFits(j, cursors, done, off, seen, d)} :: d in j.data ==> CursorFits(j, cursors, done, off, seen, d))
  }

  ghost predicate PassState(j: Journal, claimed: set<uint64>, k: nat, cursors: Cursors, done: seq<uint64>, off: uint64, seen: seq<uint64>) {
    && CursorsAt(j, cursors, done, off, seen)
    && k <= j.header.nEntries
    && Claims(j, claimed, k, cursors)
  }

  lemma UsesWithinTotals(j: Journal, claimed: set<uint64>, k: nat, cursors: Cursors, done: seq<uint64>, off: uint64, seen: seq<uint64>)
    requires PassState(j, claimed, k, cursors, done, off, seen)
    ensures forall o :: IsOwner(j, o) ==> UseOf(o, k, cursors) <= Total(j, o)
  {
    forall o | IsOwner(j, o) ensures UseOf(o, k, cursors) <= Total(j, o) {
      if o.Of? { assert CursorFits(j, cursors, done, off, seen, o.data); }
    }
  }

  /** In a well-formed index the next posting of `d` is the entry the pass stands on. */
  lemma NextPosting(j: Journal, done: seq<uint64>, off: uint64, d: uint64)
    requires d in j.data && Contains(j, off, d)
    requires PostingList(j, d) == Filtered(j, GlobalList(j), d)
    requires done + [off] <= GlobalList(j)
    ensures var f := Filtered(j, done, d);
            |f| < |PostingList(j, d)| && PostingList(j, d)[|f|] == off
  {
    var list, k := GlobalList(j), |done|;
    assert list[..k+1] == done + [off];
    FilteredPrefix(j, list, k + 1, d);
    assert (done + [off])[..k] == done;
    assert Filtered(j, done + [off], d) == Filtered(j, done, d) + [off];
  }

  lemma NextDataItem(j: Journal, c: IndexCursor, done: seq<uint64>, off: uint64, d: uint64)
    requires d in j.data && Contains(j, off, d) && j.data[d].nEntries > 0
    requires PostingList(j, d) == Filtered(j, GlobalList(j), d)
    requires CursorAt(j, c, d, Filtered(j, done, d)) && 0 < c.used < c.total
    requires done + [off] <= GlobalList(j) && (forall e :: e in done ==> e < off)
    ensures c.last < off
    ensures var list := ChainItems(j.arrays, Head(j, Of(d)), Total(j, Of(d))); c.used - 1 < |list| && list[c.used - 1] == off
  {
    NextPosting(j, done, off, d);
    FilteredMembers(j, done, d);
    assert c.last in Filtered(j, done, d);
    assert PostingList(j, d) == [j.data[d].entryOffset] + ChainItems(j.arrays, Head(j, Of(d)), Total(j, Of(d)));
  }

  lemma NextDataOk(j: Journal, claimed: set<uint64>, k: nat, cursors: Cursors, done: seq<uint64>, off: uint64, seen: seq<uint64>, d: uint64)
    requires AllShaped(j) && ArraysApart(j) && PassState(j, claimed, k, cursors, done, off, seen)
    requires d in j.data && d !in seen && Contains(j, off, d) && 0 < cursors[d].used < cursors[d].total
    requires PostingList(j, d) == Filtered(j, GlobalList(j), d)
    requires done + [off] <= GlobalList(j) && (forall e :: e in done ==> e < off)
    ensures NextOk(j, claimed, Of(d), cursors[d], cursors[d].used - 1)
    ensures ChainItems(j.arrays, Head(j, Of(d)), cursors[d].used)[cursors[d].used - 1] == off
  {
    var c, u := cursors[d], cursors[d].used - 1;
    LastPosted(j, done, off, seen, d);
    assert CursorFits(j, cursors, done, off, seen, d);
    NextDataItem(j, c, done, off, d);
    UsesWithinTotals(j, claimed, k, cursors, done, off, seen);
    assert IsOwner(j, Of(d));
    ShapedNextOk(j, claimed, k, cursors, Of(d), c, u);
    ShapedChain(j, Of(d), u + 1);
  }

  /** Recording the posting that was just taken. */
  lemma CursorAdvanced(j: Journal, c: IndexCursor, d: uint64, posted: seq<uint64>, c': IndexCursor, off: uint64)
    requires d in j.data && CursorAt(j, c, d, posted) && c.used < c.total
    requires c'.used == c.used + 1 && c'.total == c.total && c'.last == off
    requires if posted == [] then off == j.data[d].entryOffset && Synced(j, Of(d), c', 0)
             else Synced(j, Of(d), c', |posted|) &&
                  ChainItems(j.arrays, Head(j, Of(d)), |posted|) == ChainItems(j.arrays, Head(j, Of(d)), |posted| - 1) + [off]
    ensures CursorAt(j, c', d, posted + [off])
  {
    assert ListPrefix(j, d, |posted| + 1) == posted + [off];
  }

  lemma PostedStep(j: Journal, done: seq<uint64>, off: uint64, seen: seq<uint64>, d: uint64, d': uint64)
    ensures Posted(j, done, off, seen + [d], d') ==
              if d' == d && d !in seen then Posted(j, done, off, seen, d') + [off] else Posted(j, done, off, seen, d')
  {
  }

  lemma LastPosted(j: Journal, done: seq<uint64>, off: uint64, seen: seq<uint64>, d: uint64)
    requires forall e :: e in done ==> e < off
    ensures var posted := Posted(j, done, off, seen, d);
            d in seen <==> posted != [] && posted[|posted|-1] == off
    ensures d !in seen ==> Posted(j, done, off, seen, d) == Filtered(j, done, d)
  {
    FilteredMembers(j, done, d);
    var f := Filtered(j, done, d);
    assert f != [] ==> f[|f|-1] in f;
  }

  lemma PassRepeats(j: Journal, claimed: set<uint64>, k: nat, cursors: Cursors, done: seq<uint64>, off: uint64, seen: seq<uint64>, d: uint64)
    requires PassState(j, claimed, k, cursors, done, off, seen) && d in seen
    ensures PassState(j, claimed, k, cursors, done, off, seen + [d])
  {
    forall d' | d' in j.data ensures CursorFits(j, cursors, done, off, seen + [d], d') {
      assert CursorFits(j, cursors, done, off, seen, d');
      PostedStep(j, done, off, seen, d, d');
    }
  }

  lemma ClaimsSame(j: Journal, claimed: set<uint64>, k: nat, cursors: Cursors, cursors': Cursors)
    requires Claims(j, claimed, k, cursors)
    requires forall o :: UseOf(o, k, cursors') == UseOf(o, k, cursors)
    ensures Claims(j, claimed, k, cursors')
  {
  }

  lemma ClaimsStep(j: Journal, claimed: set<uint64>, k: nat, cursors: Cursors, d: uint64, c: IndexCursor, claimed': set<uint64>)
    requires NonEmptyArrays(j.arrays) && Claims(j, claimed, k, cursors) && d in j.data && d in cursors
    requires c.used == cursors[d].used + 1
    requires cursors[d].used == 0 ==> claimed' == claimed
    requires var n := cursors[d].used;
             n > 0 ==>
               && Complete(j.arrays, Head(j, Of(d)), n - 1)
               && NextOk(j, claimed, Of(d), cursors[d], n - 1)
               && Opened(j, Of(d), n - 1) <= Opened(j, Of(d), n)
               && claimed' == claimed + Elements(Opened(j, Of(d), n)[|Opened(j, Of(d), n - 1)|..])
    ensures Claims(j, claimed', k, cursors[d := c])
  {
    var n, cursors' := cursors[d].used, cursors[d := c];
    if n == 0 {
      ClaimsSame(j, claimed, k, cursors, cursors');
    } else {
      TakeSlot(j.arrays, Head(j, Of(d)), n - 1);
      ClaimsGrow(j, claimed, k, cursors, Of(d), k, cursors', claimed');
    }
  }

  lemma CursorsStep(j: Journal, cursors: Cursors, done: seq<uint64>, off: uint64, seen: seq<uint64>, d: uint64, c: IndexCursor)
    requires CursorsAt(j, cursors, done, off, seen) && d in j.data && d !in seen
    requires CursorAt(j, c, d, Posted(j, done, off, seen, d) + [off])
    ensures CursorsAt(j, cursors[d := c], done, off, seen + [d])
  {
    forall d' | d' in j.data ensures CursorFits(j, cursors[d := c], done, off, seen + [d], d') {
      assert CursorFits(j, cursors, done, off, seen, d');
      PostedStep(j, done, off, seen, d, d');
    }
  }

  // ----- the state of the global walk

  /** The global cursor has listed `done`, all of it existing entries with existing DATA. */
  ghost predicate GlobalState(j: Journal, g: IndexCursor, done: seq<uint64>) {
    && g.total == j.header.nEntries && g.used == |done| <= g.total
    && done == ChainItems(j.arrays, Head(j, Global), g.used) && Ascending(done)
    && Synced(j, Global, g, g.used)
    && g.last == (if done == [] then 0 else done[|done|-1])
    && (forall e :: e in done ==> e in j.entries)
    && Resolved(j, done)
  }

  ghost predicate Resolved(j: Journal, done: seq<uint64>) {
    forall e, d :: e in done && Contains(j, e, d) ==> d in j.data
  }

  /** Listing `off` next keeps the global state, once its items are known to exist. */
  lemma GlobalAdvanced(j: Journal, g: IndexCursor, done: seq<uint64>, g': IndexCursor, off: uint64)
    requires GlobalState(j, g, done) && g.used < g.total
    requires Synced(j, Global, g', g.used + 1) && g'.used == g.used + 1 && g'.total == g.total && g'.last == off
    requires ChainItems(j.arrays, Head(j, Global), g.used + 1) == done + [off]
    requires off > g.last && off in j.entries
    requires forall d :: d in j.entries[off].items ==> d in j.data
    ensures GlobalState(j, g', done + [off])
    ensures forall e :: e in done ==> e < off
    ensures done + [off] <= GlobalList(j)
  {
    BeforeOff(done, g.last, off);
    AscendingAppend(done, off);
    ItemsPrefix(j.arrays, Head(j, Global), g.used + 1, j.header.nEntries);
  }

  lemma BeforeOff(done: seq<uint64>, last: uint64, off: uint64)
    requires Ascending(done) && last == (if done == [] then 0 else done[|done|-1]) && last < off
    ensures forall e :: e in done ==> e < off
  {
    forall e | e in done ensures e < off {
      var i :| 0 <= i < |done| && done[i] == e;
      assert done[i] <= done[|done|-1];
    }
  }

  lemma NextGlobalOk(j: Journal, claimed: set<uint64>, cursors: Cursors, g: IndexCursor, done: seq<uint64>)
    requires 0 !in j.entries && AllShaped(j) && ArraysApart(j) && GlobalOrdered(j)
    requires GlobalState(j, g, done) && g.used < g.total
    requires PassState(j, claimed, g.used, cursors, done, 0, [])
    ensures NextOk(j, claimed, Global, g, g.used)
  {
    UsesWithinTotals(j, claimed, g.used, cursors, done, 0, []);
    assert IsOwner(j, Global);
    ShapedChain(j, Global, g.used);
    var list, u := GlobalList(j), g.used;
    assert list[u] in Elements(list);
    assert u > 0 ==> list[u-1] == done[u-1];
    ShapedNextOk(j, claimed, g.used, cursors, Global, g, u);
  }

  lemma PassEnters(j: Journal, claimed: set<uint64>, k: nat, cursors: Cursors, done: seq<uint64>, off: uint64, claimed': set<uint64>)
    requires PassState(j, claimed, k, cursors, done, 0, []) && k < j.header.nEntries
    requires Claims(j, claimed', k + 1, cursors)
    ensures PassState(j, claimed', k + 1, cursors, done, off, [])
  {
    forall d | d in j.data ensures CursorFits(j, cursors, done, off, [], d) {
      assert CursorFits(j, cursors, done, 0, [], d);
      assert Posted(j, done, off, [], d) == Posted(j, done, 0, [], d);
    }
  }

  lemma PassLeaves(j: Journal, claimed: set<uint64>, k: nat, cursors: Cursors, done: seq<uint64>, off: uint64)
    requires off in j.entries && PassState(j, claimed, k, cursors, done, off, j.entries[off].items)
    ensures PassState(j, claimed, k, cursors, done + [off], 0, [])
  {
    forall d | d in j.data ensures CursorFits(j, cursors, done + [off], 0, [], d) {
      assert CursorFits(j, cursors, done, off, j.entries[off].items, d);
      assert (done + [off])[..|done|] == done;
      assert Posted(j, done + [off], 0, [], d) == Posted(j, done, off, j.entries[off].items, d);
    }
  }

  lemma GlobalClaims(j: Journal, claimed: set<uint64>, k: nat, cursors: Cursors, g: IndexCursor, claimed': set<uint64>)
    requires NonEmptyArrays(j.arrays) && Claims(j, claimed, k, cursors)
    requires Complete(j.arrays, Head(j, Global), k) && NextOk(j, claimed, Global, g, k)
    requires Opened(j, Global, k) <= Opened(j, Global, k + 1)
    requires claimed' == claimed + Elements(Opened(j, Global, k + 1)[|Opened(j, Global, k)|..])
    ensures Claims(j, claimed', k + 1, cursors)
  {
    TakeSlot(j.arrays, Head(j, Global), k);
    ClaimsGrow(j, claimed, k, cursors, Global, k + 1, cursors, claimed');
  }

  lemma NextGlobalOkIfIndexed(j: Journal, claimed: set<uint64>, cursors: Cursors, g: IndexCursor, done: seq<uint64>)
    requires 0 !in j.entries && GlobalState(j, g, done) && g.used < g.total
    requires PassState(j, claimed, g.used, cursors, done, 0, [])
    ensures PassIndex(j) ==> NextOk(j, claimed, Global, g, g.used)
  {
    if PassIndex(j) {
      NextGlobalOk(j, claimed, cursors, g, done);
    }
  }

  lemma EntryListed(j: Journal, claimed: set<uint64>, cursors: Cursors, g: IndexCursor, done: seq<uint64>, off: uint64, claimed': set<uint64>)
    requires NonEmptyArrays(j.arrays) && g.used < j.header.nEntries && NextOk(j, claimed, Global, g, g.used)
    requires PassState(j, claimed, g.used, cursors, done, 0, [])
    requires Complete(j.arrays, Head(j, Global), g.used)
    requires Opened(j, Global, g.used) <= Opened(j, Global, g.used + 1)
    requires claimed' == claimed + Elements(Opened(j, Global, g.used + 1)[|Opened(j, Global, g.used)|..])
    ensures PassState(j, claimed', g.used + 1, cursors, done, off, [])
  {
    GlobalClaims(j, claimed, g.used, cursors, g, claimed');
    PassEnters(j, claimed, g.used, cursors, done, off, claimed');
  }

  lemma EntryInOrder(j: Journal, claimed: set<uint64>, g: IndexCursor, done: seq<uint64>, off: uint64)
    requires GlobalState(j, g, done) && NextOk(j, claimed, Global, g, g.used)
    requires ChainItems(j.arrays, Head(j, Global), g.used + 1) == done + [off]
    ensures done + [off] <= GlobalList(j) && forall e :: e in done ==> e < off
  {
    ItemsPrefix(j.arrays, Head(j, Global), g.used + 1, j.header.nEntries);
    BeforeOff(done, g.last, off);
  }

  // ----- the start and the end of the pass

  function StartCursor(o: DataObject): IndexCursor {
    IndexCursor(o.entryArrayOffset, 0, 0, o.nEntries, o.entryOffset)
  }

  lemma PassStarts(j: Journal, cursors: Cursors)
    requires cursors.Keys == j.data.Keys && forall d :: d in j.data ==> cursors[d] == StartCursor(j.data[d])
    ensures PassState(j, {}, 0, cursors, [], 0, [])
    ensures GlobalState(j, IndexCursor(j.header.entryArrayOffset, 0, 0, j.header.nEntries, 0), [])
  {
    forall d | d in j.data ensures CursorFits(j, cursors, [], 0, [], d) {
    }
    forall o ensures UseOf(o, 0, cursors) == 0 && Opened(j, o, UseOf(o, 0, cursors)) == [] {
    }
  }

  /** Every cursor has reached the end of its list. */
  ghost predicate AllUsed(j: Journal, cursors: Cursors) {
    cursors.Keys == j.data.Keys && forall d :: d in j.data ==> cursors[d].used == j.data[d].nEntries > 0
  }

  lemma ListsMatch(j: Journal, cursors: Cursors, g: IndexCursor, done: seq<uint64>)
    requires Parsed(j) && GlobalState(j, g, done) && g.used == g.total
    ensures done == GlobalList(j) && GlobalOrdered(j)
    ensures CursorsAt(j, cursors, done, 0, []) && AllUsed(j, cursors) ==> PostingsMatch(j)
  {
    assert Elements(done) <= j.entries.Keys;
    AscendingCovers(done, j.entries.Keys);
    if CursorsAt(j, cursors, done, 0, []) && AllUsed(j, cursors) {
      forall d | d in j.data ensures j.data[d].nEntries > 0 && PostingList(j, d) == Filtered(j, GlobalList(j), d) {
        assert CursorFits(j, cursors, done, 0, [], d);
      }
    }
  }

  lemma ClaimsAtEnd(j: Journal, claimed: set<uint64>, cursors: Cursors)
    requires Claims(j, claimed, j.header.nEntries, cursors) && AllUsed(j, cursors)
    ensures ArraysApart(j)
    ensures forall o :: IsOwner(j, o) ==> UseOf(o, j.header.nEntries, cursors) == Total(j, o)
  {
  }

  lemma AllArraysClaimed(j: Journal, claimed: set<uint64>, cursors: Cursors)
    requires Claims(j, claimed, j.header.nEntries, cursors) && AllUsed(j, cursors)
    ensures ArraysOwned(j) <==> |claimed| == |j.arrays|
  {
    ClaimsAtEnd(j, claimed, cursors);
    forall a | a in claimed ensures a in j.arrays.Keys {
      var o :| IsOwner(j, o) && a in Opened(j, o, UseOf(o, j.header.nEntries, cursors));
      OpenedExist(j.arrays, Head(j, o), Total(j, o));
    }
    if claimed == j.arrays.Keys {
      assert |claimed| == |j.arrays.Keys|;
    } else {
      var x :| x in j.arrays.Keys && x !in claimed;
      SubsetSize(claimed, j.arrays.Keys - {x});
    }
    assert claimed == j.arrays.Keys <==> |claimed| == |j.arrays|;
    if ArraysOwned(j) {
      forall a | a in j.arrays ensures a in claimed {
        var o :| IsOwner(j, o) && a in Opened(j, o, Total(j, o));
      }
    }
    if claimed == j.arrays.Keys {
      forall a | a in j.arrays ensures exists o :: IsOwner(j, o) && a in Opened(j, o, Total(j, o)) {
        var o :| IsOwner(j, o) && a in Opened(j, o, UseOf(o, j.header.nEntries, cursors));
      }
    }
  }

  lemma ShortListRejected(j: Journal, cursors: Cursors, done: seq<uint64>, d: uint64)
    requires d in j.data && CursorsAt(j, cursors, done, 0, []) && done == GlobalList(j)
    requires cursors[d].used != j.data[d].nEntries
    ensures !PassIndex(j)
  {
    if PassIndex(j) {
      assert CursorFits(j, cursors, done, 0, [], d);
      assert IsOwner(j, Of(d));
      PostingListLength(j, d);
    }
  }

  lemma AcceptedIsPassIndex(j: Journal, claimed: set<uint64>, cursors: Cursors, g: IndexCursor, done: seq<uint64>)
    requires Parsed(j) && GlobalState(j, g, done) && g.used == g.total
    requires PassState(j, claimed, g.used, cursors, done, 0, []) && AllUsed(j, cursors)
    requires Shaped(j, Global) && forall d :: d in j.data ==> Shaped(j, Of(d))
    ensures PassIndex(j)
  {
    ListsMatch(j, cursors, g, done);
    ClaimsAtEnd(j, claimed, cursors);
    forall e, d | Contains(j, e, d) ensures d in j.data {
      assert e in Elements(GlobalList(j));
    }
    forall o | IsOwner(j, o) ensures Shaped(j, o) {
      if o.Of? { assert Shaped(j, Of(o.data)); }
    }
  }

  class GraphVerifier {
    const journal: Journal
    var claimed: set<uint64>

    constructor (j: Journal)
      ensures journal == j && claimed == {}
    {
      journal, claimed := j, {};
    }

    /** Takes the next posting of one list, opening its next array when needed. */
    method ArrayNext(c: IndexCursor, ghost o: Owner, ghost u: nat) returns (ok: bool, next: IndexCursor, item: uint64)
      requires NonEmptyArrays(journal.arrays) && 0 !in journal.entries && Synced(journal, o, c, u)
      modifies this
      ensures ok <==> old(NextOk(journal, claimed, o, c, u))
      ensures ok ==>
                && Synced(journal, o, next, u + 1)
                && next.used == c.used + 1 && next.total == c.total && next.last == item
                && ChainItems(journal.arrays, Head(journal, o), u + 1) == ChainItems(journal.arrays, Head(journal, o), u) + [item]
                && Opened(journal, o, u) <= Opened(journal, o, u + 1)
                && claimed == old(claimed) + Elements(Opened(journal, o, u + 1)[|Opened(journal, o, u)|..])
    {
      item := 0;
      NextSlot(journal, claimed, o, c, u);
      ok, next := OpenArray(c, o, u);
      if !ok { return; }
      item := journal.arrays[next.at].items[next.index];
      if item == 0 || item <= c.last || item !in journal.entries {
        ok := false;
        return;
      }
      next := next.(index := next.index + 1, used := next.used + 1, last := item);
    }

    /** Goes to the array of the next slot and claims it if it is a new one. */
    method OpenArray(c: IndexCursor, ghost o: Owner, ghost u: nat) returns (ok: bool, next: IndexCursor)
      requires NonEmptyArrays(journal.arrays) && Synced(journal, o, c, u)
      modifies this
      ensures var p := NextPlace(journal.arrays, Head(journal, o), u);
              && (ok <==> old(MayOpen(journal, claimed, c, u, p)))
              && (ok ==> next == c.(at := p.at, index := p.index) && claimed == old(claimed) + NewArray(p))
    {
      next := c;
      if u > 0 { LocateInBounds(journal.arrays, Head(journal, o), u); }
      if c.used >= c.total {
        return false, next;
      }
      if c.at !in journal.arrays {
        return false, next;
      }
      if c.index == |journal.arrays[c.at].items| {
        if journal.arrays[c.at].next <= c.at {
          return false, next;
        }
        next := next.(at := journal.arrays[c.at].next, index := 0);
        if next.at !in journal.arrays {
          return false, next;
        }
      }
      if next.index == 0 {
        if next.at in claimed {
          return false, next;
        }
        claimed := claimed + {next.at};
      }
      return true, next;
    }

    /** Takes the posting of `d` that should be `off`, from the inline slot or the arrays. */
    method TakePosting(c: IndexCursor, d: uint64, ghost posted: seq<uint64>)
      returns (ok: bool, next: IndexCursor, taken: uint64)
      requires Parsed(journal) && d in journal.data && CursorAt(journal, c, d, posted) && c.used < c.total
      modifies this
      ensures ok <==> posted == [] || old(NextOk(journal, claimed, Of(d), c, |posted| - 1))
      ensures ok && posted == [] ==> taken == journal.data[d].entryOffset && claimed == old(claimed)
      ensures ok && posted != [] ==>
                ChainItems(journal.arrays, Head(journal, Of(d)), |posted|) ==
                ChainItems(journal.arrays, Head(journal, Of(d)), |posted| - 1) + [taken]
      ensures ok ==> CursorAt(journal, next, d, posted + [taken])
      ensures ok && posted != [] ==>
                && Opened(journal, Of(d), |posted| - 1) <= Opened(journal, Of(d), |posted|)
                && claimed == old(claimed) + Elements(Opened(journal, Of(d), |posted|)[|Opened(journal, Of(d), |posted| - 1)|..])
    {
      if c.used == 0 {
        taken := journal.data[d].entryOffset;
        next := c.(used := 1);
        ok := true;
      } else {
        ok, next, taken := ArrayNext(c, Of(d), c.used - 1);
      }
      if ok {
        CursorAdvanced(journal, c, d, posted, next, taken);
      }
    }

    /** Matches one item of entry `off` against the posting list of DATA `d`. */
    method PostItem(cursors: Cursors, d: uint64, off: uint64, ghost k: nat, ghost done: seq<uint64>, ghost seen: seq<uint64>)
      returns (ok: bool, next: Cursors)
      requires Parsed(journal) && PassState(journal, claimed, k, cursors, done, off, seen)
      requires d in journal.data && Contains(journal, off, d)
      requires done + [off] <= GlobalList(journal) && (forall e :: e in done ==> e < off)
      modifies this
      ensures ok ==> PassState(journal, claimed, k, next, done, off, seen + [d])
      ensures !ok ==> !PassIndex(journal)
    {
      var c := cursors[d];
      next := cursors;
      ghost var posted := Posted(journal, done, off, seen, d);
      assert CursorFits(journal, cursors, done, off, seen, d);
      LastPosted(journal, done, off, seen, d);
      if c.used > 0 && c.last == off {
        PassRepeats(journal, claimed, k, cursors, done, off, seen, d);
        return true, next;
      }
      if PassIndex(journal) {
        NextPosting(journal, done, off, d);
        PostingListLength(journal, d);
      }
      if c.used >= c.total {
        return false, next;
      }
      if PassIndex(journal) && c.used > 0 {
        NextDataOk(journal, claimed, k, cursors, done, off, seen, d);
      }
      var taken: uint64, c': IndexCursor;
      ok, c', taken := TakePosting(c, d, posted);
      if !ok || taken != off {
        return false, next;
      }
      next := cursors[d := c'];
      ClaimsStep(journal, old(claimed), k, cursors, d, c', claimed);
      CursorsStep(journal, cursors, done, off, seen, d, c');
    }

    /** Matches every item of one entry. */
    method PostEntry(cursors: Cursors, off: uint64, ghost k: nat, ghost done: seq<uint64>) returns (ok: bool, next: Cursors)
      requires Parsed(journal) && PassState(journal, claimed, k, cursors, done, off, [])
      requires off in journal.entries
      requires done + [off] <= GlobalList(journal) && (forall e :: e in done ==> e < off)
      modifies this
      ensures ok ==> PassState(journal, claimed, k, next, done + [off], 0, [])
      ensures ok ==> forall d :: d in journal.entries[off].items ==> d in journal.data
      ensures !ok ==> !PassIndex(journal)
    {
      var items := journal.entries[off].items;
      next := cursors;
      assert items[..0] == [];
      for m := 0 to |items|
        invariant PassState(journal, claimed, k, next, done, off, items[..m])
        invariant forall d :: d in items[..m] ==> d in journal.data
      {
        var d := items[m];
        assert Contains(journal, off, d);
        if d !in journal.data {
          return false, next;
        }
        ok, next := PostItem(next, d, off, k, done, items[..m]);
        if !ok {
          return false, next;
        }
        TakeOneMore(items, m);
      }
      assert items[..|items|] == items;
      PassLeaves(journal, claimed, k, next, done, off);
      ok := true;
    }

    /** Lists the next entry and matches its items. */
    method ListEntry(global: IndexCursor, cursors: Cursors, ghost done: seq<uint64>)
      returns (ok: bool, g: IndexCursor, next: Cursors, off: uint64)
      requires Parsed(journal) && global.used < global.total
      requires GlobalState(journal, global, done) && PassState(journal, claimed, global.used, cursors, done, 0, [])
      modifies this
      ensures ok ==> g.used == global.used + 1 && g.total == global.total && GlobalState(journal, g, done + [off])
      ensures ok ==> PassState(journal, claimed, g.used, next, done + [off], 0, [])
      ensures !ok ==> !PassIndex(journal)
    {
      next := cursors;
      ok, g, off := NextEntry(global, cursors, done);
      if !ok {
        return;
      }
      ok, next := PostEntry(cursors, off, global.used + 1, done);
      if ok {
        GlobalAdvanced(journal, global, done, g, off);
      }
    }

    /** Takes the next entry of the global list. */
    method NextEntry(global: IndexCursor, ghost cursors: Cursors, ghost done: seq<uint64>) returns (ok: bool, g: IndexCursor, off: uint64)
      requires Parsed(journal) && global.used < global.total
      requires GlobalState(journal, global, done) && PassState(journal, claimed, global.used, cursors, done, 0, [])
      modifies this
      ensures ok ==> PassState(journal, claimed, global.used + 1, cursors, done, off, [])
      ensures ok ==> Synced(journal, Global, g, global.used + 1) && g.used == global.used + 1 && g.total == global.total && g.last == off
      ensures ok ==> off > global.last && off in journal.entries && ChainItems(journal.arrays, Head(journal, Global), global.used + 1) == done + [off]
      ensures ok ==> done + [off] <= GlobalList(journal) && forall e :: e in done ==> e < off
      ensures !ok ==> !PassIndex(journal)
    {
      ghost var before := claimed;
      NextGlobalOkIfIndexed(journal, claimed, cursors, global, done);
      ok, g, off := ArrayNext(global, Global, global.used);
      if ok {
        EntryListed(journal, before, cursors, global, done, off, claimed);
        EntryInOrder(journal, before, global, done, off);
      }
    }

    /** One pass over the global list that moves every DATA cursor along. */
    method ReversePostings(start: IndexCursor, cursors: Cursors)
      returns (ok: bool, global: IndexCursor, next: Cursors, ghost done: seq<uint64>)
      requires Parsed(journal)
      requires GlobalState(journal, start, []) && PassState(journal, claimed, 0, cursors, [], 0, [])
      modifies this
      ensures ok ==> global.used == global.total && GlobalState(journal, global, done)
      ensures ok ==> PassState(journal, claimed, global.used, next, done, 0, [])
      ensures !ok ==> !PassIndex(journal)
    {
      global, next, done := start, cursors, [];
      while global.used < global.total
        invariant GlobalState(journal, global, done)
        invariant PassState(journal, claimed, global.used, next, done, 0, [])
        decreases global.total - global.used
      {
        var off: uint64;
        ok, global, next, off := ListEntry(global, next, done);
        if !ok {
          return;
        }
        done := done + [off];
      }
      ok := true;
    }

    method ArrayFinish(c: IndexCursor, hinted: bool, tailOffset: uint64, tailUsed: uint64, ghost o: Owner) returns (ok: bool)
      requires Parsed(journal) && Synced(journal, o, c, c.used)
      ensures ok <==> c.used == c.total && ChainShape(journal.arrays, Head(journal, o), c.total, hinted, tailOffset, tailUsed)
    {
      if c.used != c.total {
        return false;
      }
      if c.total == 0 {
        return !(c.at != 0 || (hinted && (tailOffset != 0 || tailUsed != 0)));
      }
      LocateInBounds(journal.arrays, Head(journal, o), c.total);
      if journal.arrays[c.at].next != 0 {
        return false;
      }
      for k := c.index to |journal.arrays[c.at].items|
        invariant forall i :: c.index <= i < k ==> journal.arrays[c.at].items[i] == 0
      {
        if journal.arrays[c.at].items[k] != 0 {
          return false;
        }
      }
      return !(hinted && (tailOffset != c.at || tailUsed != c.index));
    }

    /** Checks the end of one DATA list. */
    method FinishList(cursors: Cursors, d: uint64, ghost done: seq<uint64>) returns (ok: bool)
      requires Parsed(journal) && d in journal.data && CursorsAt(journal, cursors, done, 0, []) && done == GlobalList(journal)
      requires journal.data[d].nEntries > 0
      ensures ok ==> cursors[d].used == journal.data[d].nEntries && Shaped(journal, Of(d))
      ensures !ok ==> !PassIndex(journal)
    {
      var cursor := cursors[d];
      assert CursorFits(journal, cursors, done, 0, [], d);
      if cursor.used != journal.data[d].nEntries {
        ShortListRejected(journal, cursors, done, d);
        return false;
      }
      if cursor.total > 0 {
        cursor := cursor.(total := cursor.total - 1, used := cursor.used - 1);
      }
      ok := ArrayFinish(cursor, journal.header.compact, journal.data[d].tailArrayOffset, journal.data[d].tailArrayUsed, Of(d));
      assert IsOwner(journal, Of(d));
    }

    /** Checks the ends of all DATA lists. */
    method FinishData(cursors: Cursors, ghost done: seq<uint64>) returns (ok: bool)
      requires Parsed(journal) && CursorsAt(journal, cursors, done, 0, []) && done == GlobalList(journal)
      requires forall d :: d in journal.data ==> journal.data[d].nEntries > 0
      ensures ok ==> AllUsed(journal, cursors) && forall d :: d in journal.data ==> Shaped(journal, Of(d))
      ensures !ok ==> !PassIndex(journal)
    {
      var pending := journal.data.Keys;
      while pending != {}
        invariant pending <= journal.data.Keys
        invariant forall d :: d in journal.data && d !in pending ==> cursors[d].used == journal.data[d].nEntries && Shaped(journal, Of(d))
      {
        var d :| d in pending;
        pending := pending - {d};
        ok := FinishList(cursors, d, done);
        if !ok {
          return;
        }
      }
      ok := true;
    }

    method StartCursors() returns (ok: bool, cursors: Cursors)
      ensures ok <==> forall d :: d in journal.data ==> journal.data[d].nEntries > 0
      ensures ok ==> cursors.Keys == journal.data.Keys && forall d :: d in journal.data ==> cursors[d] == StartCursor(journal.data[d])
    {
      cursors := map[];
      var pending := journal.data.Keys;
      while pending != {}
        invariant pending <= journal.data.Keys && cursors.Keys == journal.data.Keys - pending
        invariant forall d :: d in cursors ==> cursors[d] == StartCursor(journal.data[d]) && journal.data[d].nEntries > 0
      {
        var d :| d in pending;
        if journal.data[d].nEntries == 0 {
          return false, cursors;
        }
        cursors := cursors[d := StartCursor(journal.data[d])];
        pending := pending - {d};
      }
      ok := true;
    }

    /** Accepts exactly the journals whose posting lists satisfy the strict index. */
    method ValidatePostings() returns (ok: bool)
      requires Parsed(journal) && claimed == {}
      modifies this
      ensures ok <==> StrictPostings(journal)
    {
      StrictIsPassIndex(journal);
      var cursors: Cursors, global: IndexCursor;
      ok, cursors := StartCursors();
      if !ok {
        assert !PostingsMatch(journal);
        return;
      }
      PassStarts(journal, cursors);
      ghost var done: seq<uint64>;
      global := IndexCursor(journal.header.entryArrayOffset, 0, 0, journal.header.nEntries, 0);
      ok, global, cursors, done := ReversePostings(global, cursors);
      if !ok {
        return;
      }
      ListsMatch(journal, cursors, global, done);
      ok := ArrayFinish(global, journal.header.hasTailArrayHint, journal.header.tailArrayOffset, journal.header.tailArrayUsed, Global);
      if !ok {
        assert IsOwner(journal, Global);
        return;
      }
      ok := FinishData(cursors, done);
      if !ok {
        return;
      }
      AcceptedIsPassIndex(journal, claimed, cursors, global, done);
      AllArraysClaimed(journal, claimed, cursors);
      return |claimed| == |journal.arrays|;
    }
  }
}
