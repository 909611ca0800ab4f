/** Loading the entries of a file whose tail is damaged (go/journal/reader.go:651-697, 1257-1275,
    go/journal/reader_recovery.go:141-249) and counting a DATA object's postings in it
    (go/journal/reader_filter_posting.go:63-133). */
module Recovery {
  import opened JournalGraph
  import G = ChainGuard

  /** What a slot leads to: an ENTRY, nothing because the file ends before it, or garbage. */
  datatype Status = Valid | Missing | Garbage

  type Statuses = uint64 -> Status

  /** An ENTRY_ARRAY object; of its `capacity` slots only `slots` lie within the file. */
  datatype ArrayState = Cut | Broken | Array(next: uint64, capacity: nat, slots: seq<uint64>)

  type Chain = m: map<uint64, ArrayState> | ChainShape(m) witness map[]

  predicate ChainShape(m: map<uint64, ArrayState>) {
    0 !in m && forall x :: x in m && m[x].Array? ==> m[x].capacity > 0 && |m[x].slots| <= m[x].capacity
  }

  /** The links of a chain, for the revisit check. */
  function Links(chain: Chain): Arrays {
    map x | x in chain && chain[x].Array? :: EntryArray(chain[x].next, chain[x].slots)
  }

  // ----- the declared slots

  /** A declared slot: seen with its value, or beyond the end of the file. */
  datatype Slot = Seen(entry: uint64) | Gone

  ghost predicate IsValid(status: Statuses, s: Slot) {
    s.Seen? && s.entry != 0 && status(s.entry) == Valid
  }

  function Wanted(n: nat, capacity: nat): nat {
    if n < capacity then n else capacity
  }

  /** The first `n` slots of one array. */
  ghost function ArraySlots(a: ArrayState, n: nat): (s: seq<Slot>)
    requires a.Array?
    ensures |s| == Wanted(n, a.capacity)
  {
    seq(Wanted(n, a.capacity), i requires i >= 0 => if i < |a.slots| then Seen(a.slots[i]) else Gone)
  }

  /** The `n` declared slots from an array on, as far as the chain can be followed. */
  ghost function Slots(chain: Chain, offset: uint64, n: nat): seq<Slot>
    decreases n
  {
    if n == 0 || offset !in chain || !chain[offset].Array? then []
    else
      var a := chain[offset];
      var w := Wanted(n, a.capacity);
      ArraySlots(a, n) + Slots(chain, a.next, n - w)
  }

  /** `kept` is the longest valid prefix of the slots; it ascends, and no later slot is valid. */
  ghost predicate Retained(status: Statuses, slots: seq<Slot>, kept: seq<uint64>) {
    && |kept| <= |slots| && Ascending(kept)
    && (forall i :: 0 <= i < |kept| ==> slots[i] == Seen(kept[i]) && IsValid(status, slots[i]))
    && (forall i :: |kept| <= i < |slots| ==> !IsValid(status, slots[i]))
  }

  /** Valid slots come first, and ascend. */
  ghost predicate Settled(status: Statuses, slots: seq<Slot>) {
    forall i, k :: 0 <= i < k < |slots| && IsValid(status, slots[k]) ==> IsValid(status, slots[i]) && slots[i].entry < slots[k].entry
  }

  /** No slot leads to garbage. */
  ghost predicate Clean(status: Statuses, slots: seq<Slot>) {
    forall i :: 0 <= i < |slots| && slots[i].Seen? && slots[i].entry != 0 ==> status(slots[i].entry) != Garbage
  }

  // ----- which chains can be walked

  /** The arrays that hold the `n` declared slots, as far as the chain can be followed. */
  ghost function Path(chain: Chain, offset: uint64, n: nat): seq<uint64>
    decreases n
  {
    if n == 0 || offset !in chain || !chain[offset].Array? then []
    else [offset] + Path(chain, chain[offset].next, n - Wanted(n, chain[offset].capacity))
  }

  ghost predicate NoRevisit(path: seq<uint64>) {
    forall i, k :: 0 <= i < k < |path| ==> path[i] != path[k]
  }

  /** The walk ends at the last declared slot, at the end of the chain or where the file was cut,
      and never at a broken or a missing array. */
  ghost predicate Readable(chain: Chain, offset: uint64, n: nat)
    decreases n
  {
    || n == 0 || offset == 0
    || (offset in chain && match chain[offset] {
          case Cut => true
          case Broken => false
          case Array(next, capacity, _) => Readable(chain, next, n - Wanted(n, capacity))
        })
  }

  /** All arrays of the declared slots are there, none of them cut short. */
  ghost predicate Whole(chain: Chain, offset: uint64, n: nat)
    decreases n
  {
    n == 0 || (offset in chain && chain[offset].Array? && |chain[offset].slots| == chain[offset].capacity
               && Whole(chain, chain[offset].next, n - Wanted(n, chain[offset].capacity)))
  }

  /** An undamaged file: every declared slot is there and leads to an ENTRY. */
  ghost predicate Loadable(chain: Chain, status: Statuses, head: uint64, declared: nat) {
    && Whole(chain, head, declared) && NoRevisit(Path(chain, head, declared))
    && forall i :: 0 <= i < |Slots(chain, head, declared)| ==> IsValid(status, Slots(chain, head, declared)[i])
  }

  /** A file of which recovery can keep something: its chain can be walked, no slot leads to garbage,
      and its valid slots come first and ascend. */
  ghost predicate Recoverable(chain: Chain, status: Statuses, head: uint64, declared: nat) {
    && Readable(chain, head, declared) && NoRevisit(Path(chain, head, declared))
    && Clean(status, Slots(chain, head, declared)) && Settled(status, Slots(chain, head, declared))
  }

  /** A walk has visited `history` and comes to `offset` with `left` slots to go. */
  ghost predicate Walked(chain: Chain, head: uint64, declared: nat, history: seq<uint64>, offset: uint64, left: nat, highest: uint64) {
    && Path(chain, head, declared) == history + Path(chain, offset, left)
    && (Readable(chain, head, declared) <==> Readable(chain, offset, left))
    && |history| + left <= declared
    && (forall i :: 0 <= i < |history| ==> history[i] <= highest)
    && (left > 0 ==> offset !in history && (offset != 0 ==> offset <= highest))
    && (if history == [] then offset == head
        else
          var last := history[|history|-1];
          G.History(Links(chain), head, last, history) && Links(chain)[last].next == offset)
  }

  /** Visiting one more array. */
  lemma Visited(chain: Chain, head: uint64, declared: nat, history: seq<uint64>, offset: uint64, left: nat, highest: uint64)
    requires Walked(chain, head, declared, history, offset, left, highest) && left > 0 && offset in chain && chain[offset].Array?
    ensures G.History(Links(chain), head, offset, history + [offset])
    ensures var a := chain[offset];
            var rest := left - Wanted(left, a.capacity);
            && rest < left && |history + [offset]| + rest <= declared
            && Path(chain, head, declared) == (history + [offset]) + Path(chain, a.next, rest)
            && (Readable(chain, head, declared) <==> Readable(chain, a.next, rest))
    ensures forall i :: 0 <= i < |history + [offset]| ==> (history + [offset])[i] <= highest
  {
    var a := chain[offset];
    VisitedHistory(chain, head, history, offset);
    Regroup(history, offset, Path(chain, a.next, left - Wanted(left, a.capacity)));
  }

  lemma Regroup(history: seq<uint64>, offset: uint64, rest: seq<uint64>)
    ensures history + ([offset] + rest) == (history + [offset]) + rest
  {
  }

  lemma VisitedHistory(chain: Chain, head: uint64, history: seq<uint64>, offset: uint64)
    requires offset in chain && chain[offset].Array? && offset !in history
    requires if history == [] then offset == head
             else
               var last := history[|history|-1];
               G.History(Links(chain), head, last, history) && Links(chain)[last].next == offset
    ensures G.History(Links(chain), head, offset, history + [offset])
  {
    var longer := history + [offset];
    assert forall i :: 0 <= i < |history| ==> longer[i] == history[i];
  }

  /** A link back to a visited array repeats it on the path. */
  lemma Repeats(chain: Chain, history: seq<uint64>, next: uint64, left: nat, path: seq<uint64>)
    requires next in history && next in chain && chain[next].Array? && left > 0
    requires path == history + Path(chain, next, left)
    ensures !NoRevisit(path)
  {
    var i :| 0 <= i < |history| && history[i] == next;
    assert path[i] == next && path[|history|] == next;
  }

  /** The end of a walk: what was visited is the whole path, each array once. */
  lemma WalkEnds(chain: Chain, head: uint64, declared: nat, history: seq<uint64>, offset: uint64, left: nat, highest: uint64)
    requires Walked(chain, head, declared, history, offset, left, highest)
    requires left == 0 || offset !in chain || !chain[offset].Array?
    ensures NoRevisit(Path(chain, head, declared))
  {
    assert history + [] == history;
  }

  /** A prefix of valid slots that stops before an invalid one, or at the end. */
  ghost predicate ValidPrefix(status: Statuses, slots: seq<Slot>, kept: seq<uint64>) {
    && |kept| <= |slots|
    && (forall i :: 0 <= i < |kept| ==> slots[i] == Seen(kept[i]) && IsValid(status, slots[i]))
    && (|kept| < |slots| ==> !IsValid(status, slots[|kept|]))
  }

  lemma SettledRetains(status: Statuses, slots: seq<Slot>, kept: seq<uint64>)
    requires Settled(status, slots) && ValidPrefix(status, slots, kept)
    ensures Retained(status, slots, kept)
  {
    forall i, k | 0 <= i < k < |kept| ensures kept[i] < kept[k] {
      assert IsValid(status, slots[k]);
    }
  }

  // ----- the second pass: nothing valid may hide behind the damage

  /** How far the second pass has come. */
  ghost predicate SettledSoFar(status: Statuses, done: seq<Slot>, missing: bool, previous: uint64) {
    && Settled(status, done)
    && (missing <==> exists i :: 0 <= i < |done| && !IsValid(status, done[i]))
    && (forall i :: 0 <= i < |done| && IsValid(status, done[i]) ==> done[i].entry <= previous)
    && (previous != 0 ==> exists i :: 0 <= i < |done| && IsValid(status, done[i]) && done[i].entry == previous)
  }

  lemma SettledNext(status: Statuses, done: seq<Slot>, missing: bool, previous: uint64, s: Slot)
    requires SettledSoFar(status, done, missing, previous)
    requires IsValid(status, s) ==> !missing && s.entry > previous
    ensures SettledSoFar(status, done + [s], missing || !IsValid(status, s), if IsValid(status, s) then s.entry else previous)
  {
    var more := done + [s];
    assert more[|done|] == s && forall i :: 0 <= i < |done| ==> more[i] == done[i];
    if missing {
      var i :| 0 <= i < |done| && !IsValid(status, done[i]);
      assert !IsValid(status, more[i]);
    }
    if !IsValid(status, s) && previous != 0 {
      var i :| 0 <= i < |done| && IsValid(status, done[i]) && done[i].entry == previous;
      assert IsValid(status, more[i]);
    }
  }

  /** A valid slot after a missing one, or not above the ones before, unsettles the slots. */
  lemma Unsettled(status: Statuses, done: seq<Slot>, missing: bool, previous: uint64, s: Slot, rest: seq<Slot>)
    requires SettledSoFar(status, done, missing, previous) && IsValid(status, s) && (missing || s.entry <= previous)
    ensures !Settled(status, done + [s] + rest)
  {
    var all := done + [s] + rest;
    assert all[|done|] == s && forall i :: 0 <= i < |done| ==> all[i] == done[i];
    if missing {
      var i :| 0 <= i < |done| && !IsValid(status, done[i]);
      assert !IsValid(status, all[i]) && IsValid(status, all[|done|]);
    } else {
      var i :| 0 <= i < |done| && IsValid(status, done[i]) && done[i].entry == previous;
      assert all[i].entry >= all[|done|].entry;
    }
  }

  ghost function Gaps(n: nat): seq<Slot> {
    if n == 0 then [] else Gaps(n - 1) + [Gone]
  }

  lemma {:induction false} SettledGaps(status: Statuses, done: seq<Slot>, missing: bool, previous: uint64, n: nat)
    requires SettledSoFar(status, done, missing, previous)
    ensures SettledSoFar(status, done + Gaps(n), missing || n > 0, previous)
    decreases n
  {
    if n == 0 {
      assert done + Gaps(0) == done;
    } else {
      SettledGaps(status, done, missing, previous, n - 1);
      SettledNext(status, done + Gaps(n - 1), missing || n > 1, previous, Gone);
      JoinSlots(done, Gaps(n - 1), [Gone]);
    }
  }

  ghost function SeenSlots(s: seq<uint64>): (r: seq<Slot>)
    ensures |r| == |s|
  {
    if s == [] then [] else SeenSlots(s[..|s|-1]) + [Seen(s[|s|-1])]
  }

  lemma {:induction false} SeenAt(s: seq<uint64>, i: nat)
    requires i < |s|
    ensures SeenSlots(s)[i] == Seen(s[i])
    decreases |s|
  {
    if i < |s| - 1 { SeenAt(s[..|s|-1], i); }
  }

  lemma {:induction false} GapAt(n: nat, i: nat)
    requires i < n
    ensures |Gaps(n)| == n && Gaps(n)[i] == Gone
    decreases n
  {
    if i < n - 1 { GapAt(n - 1, i); } else if n > 1 { GapAt(n - 1, 0); }
  }

  function Available(a: ArrayState, n: nat): nat
    requires a.Array?
    ensures Available(a, n) <= Wanted(n, a.capacity) && Available(a, n) <= |a.slots|
  {
    if |a.slots| < Wanted(n, a.capacity) then |a.slots| else Wanted(n, a.capacity)
  }

  /** An array's slots: the available ones, then gaps. */
  lemma ArraySplits(a: ArrayState, n: nat)
    requires a.Array?
    ensures ArraySlots(a, n) == SeenSlots(a.slots[..Available(a, n)]) + Gaps(Wanted(n, a.capacity) - Available(a, n))
  {
    var w, k := Wanted(n, a.capacity), Available(a, n);
    var left, right := SeenSlots(a.slots[..k]), Gaps(w - k);
    if w > k { GapAt(w - k, 0); }
    forall i | 0 <= i < w ensures ArraySlots(a, n)[i] == (left + right)[i] {
      if i < k { SeenAt(a.slots[..k], i); } else { GapAt(w - k, i - k); }
    }
  }

  /** What the second pass asks of the slots `more`, after `done`. */
  ghost predicate GoOn(status: Statuses, done: seq<Slot>, more: seq<Slot>) {
    Clean(status, more) && Settled(status, done + more)
  }

  lemma SlotFails(status: Statuses, slots: seq<uint64>, i: nat, missing: bool, previous: uint64, done: seq<Slot>)
    requires i < |slots| && slots[i] != 0
    requires SettledSoFar(status, done + SeenSlots(slots[..i]), missing, previous)
    requires status(slots[i]) == Garbage || (status(slots[i]) == Valid && (missing || slots[i] <= previous))
    ensures !GoOn(status, done, SeenSlots(slots))
  {
    SeenAt(slots, i);
    if status(slots[i]) == Valid {
      SeenSplit(slots, i);
      Unsettled(status, done + SeenSlots(slots[..i]), missing, previous, Seen(slots[i]), SeenSlots(slots)[i+1..]);
      Around(done, SeenSlots(slots[..i]), Seen(slots[i]), SeenSlots(slots)[i+1..]);
    }
  }

  lemma Around(done: seq<Slot>, before: seq<Slot>, s: Slot, rest: seq<Slot>)
    ensures done + (before + [s] + rest) == done + before + [s] + rest
  {
  }

  lemma {:induction false} SeenPrefix(slots: seq<uint64>, i: nat)
    requires i <= |slots|
    ensures SeenSlots(slots[..i]) == SeenSlots(slots)[..i]
    decreases |slots| - i
  {
    forall k | 0 <= k < i ensures SeenSlots(slots[..i])[k] == SeenSlots(slots)[k] {
      SeenAt(slots[..i], k);
      SeenAt(slots, k);
    }
  }

  lemma SeenSplit(slots: seq<uint64>, i: nat)
    requires i < |slots|
    ensures SeenSlots(slots) == SeenSlots(slots[..i]) + [Seen(slots[i])] + SeenSlots(slots)[i+1..]
  {
    SeenPrefix(slots, i);
    SeenAt(slots, i);
  }

  /** One more slot was looked at. */
  lemma SlotPasses(status: Statuses, slots: seq<uint64>, i: nat, missing: bool, previous: uint64, done: seq<Slot>)
    requires i < |slots|
    requires SettledSoFar(status, done + SeenSlots(slots[..i]), missing, previous) && Clean(status, SeenSlots(slots[..i]))
    requires slots[i] != 0 ==> status(slots[i]) != Garbage && (status(slots[i]) == Valid ==> !missing && slots[i] > previous)
    ensures var v := slots[i] != 0 && status(slots[i]) == Valid;
            SettledSoFar(status, done + SeenSlots(slots[..i+1]), missing || !v, if v then slots[i] else previous)
    ensures Clean(status, SeenSlots(slots[..i+1]))
  {
    assert slots[..i+1][..i] == slots[..i];
    assert SeenSlots(slots[..i+1]) == SeenSlots(slots[..i]) + [Seen(slots[i])];
    assert done + SeenSlots(slots[..i+1]) == done + SeenSlots(slots[..i]) + [Seen(slots[i])];
    SettledNext(status, done + SeenSlots(slots[..i]), missing, previous, Seen(slots[i]));
  }

  /** Checks the available slots of one array. */
  method CheckSlots(status: Statuses, slots: seq<uint64>, missing: bool, previous: uint64, ghost done: seq<Slot>)
    returns (ok: bool, missing': bool, previous': uint64)
    requires SettledSoFar(status, done, missing, previous)
    ensures ok <==> GoOn(status, done, SeenSlots(slots))
    ensures ok ==> SettledSoFar(status, done + SeenSlots(slots), missing', previous')
  {
    missing', previous' := missing, previous;
    assert done + SeenSlots([]) == done;
    for i := 0 to |slots|
      invariant SettledSoFar(status, done + SeenSlots(slots[..i]), missing', previous') && Clean(status, SeenSlots(slots[..i]))
    {
      var s := if slots[i] == 0 then Missing else status(slots[i]);
      if s == Garbage || (s == Valid && (missing' || slots[i] <= previous')) {
        SlotFails(status, slots, i, missing', previous', done);
        return false, missing', previous';
      }
      SlotPasses(status, slots, i, missing', previous', done);
      if s == Valid { previous' := slots[i]; } else { missing' := true; }
    }
    assert slots[..|slots|] == slots;
    ok := true;
  }

  /** Checks one array: its available slots, then its gaps. */
  method CheckArray(status: Statuses, a: ArrayState, n: nat, missing: bool, previous: uint64, ghost done: seq<Slot>)
    returns (ok: bool, missing': bool, previous': uint64)
    requires a.Array? && SettledSoFar(status, done, missing, previous)
    ensures ok <==> GoOn(status, done, ArraySlots(a, n))
    ensures ok ==> SettledSoFar(status, done + ArraySlots(a, n), missing', previous')
  {
    var k, w := Available(a, n), Wanted(n, a.capacity);
    ok, missing', previous' := CheckSlots(status, a.slots[..k], missing, previous, done);
    ArraySplits(a, n);
    GapsGoOn(status, done, SeenSlots(a.slots[..k]), w - k);
    if !ok { return; }
    SettledGaps(status, done + SeenSlots(a.slots[..k]), missing', previous', w - k);
    JoinSlots(done, SeenSlots(a.slots[..k]), Gaps(w - k));
    missing' := missing' || k < w;
  }

  lemma JoinSlots(a: seq<Slot>, b: seq<Slot>, c: seq<Slot>)
    ensures a + (b + c) == a + b + c
  {
  }

  /** Gaps at the end change nothing. */
  lemma GapsGoOn(status: Statuses, done: seq<Slot>, more: seq<Slot>, n: nat)
    ensures GoOn(status, done, more + Gaps(n)) <==> GoOn(status, done, more)
  {
    var gaps := Gaps(n);
    assert forall i :: 0 <= i < |gaps| ==> gaps[i] == Gone by {
      forall i | 0 <= i < |gaps| ensures gaps[i] == Gone { GapsGone(n, i); }
    }
    var all, before := done + (more + gaps), done + more;
    assert all == before + gaps;
    assert forall i :: 0 <= i < |before| ==> all[i] == before[i];
    assert forall i :: |before| <= i < |all| ==> all[i] == Gone;
    assert forall i :: 0 <= i < |more| ==> (more + gaps)[i] == more[i];
  }

  lemma {:induction false} GapsGone(n: nat, i: nat)
    requires i < |Gaps(n)|
    ensures Gaps(n)[i] == Gone
    decreases n
  {
    if n > 0 && i < |Gaps(n - 1)| { GapsGone(n - 1, i); }
  }

  /** A link is followed exactly if it leads to an array not visited before; one that rises above
      all of them need not be looked up. */
  method CheckLink(chain: Chain, head: uint64, offset: uint64, next: uint64, remaining: nat, highest: uint64, ghost history: seq<uint64>)
    returns (ok: bool, highest': uint64)
    requires G.History(Links(chain), head, offset, history) && (remaining > 0 ==> |history| < MAX_U64)
    requires forall i :: 0 <= i < |history| ==> history[i] <= highest
    ensures ok <==> remaining == 0 || next !in history
    ensures highest' >= highest && (ok && remaining > 0 && next != 0 ==> next <= highest')
  {
    assert 0 !in history;
    ok, highest' := true, highest;
    if remaining > 0 && next != 0 {
      if next <= highest {
        var revisit := G.RejectArrayRevisit(Links(chain), head, offset, next, history);
        ok := revisit.Ok?;
      } else {
        highest' := next;
      }
    }
  }

  /** Follows the link of the array at `offset`, unless it leads back. */
  method Follow(chain: Chain, head: uint64, declared: uint64, offset: uint64, left: nat, highest: uint64, ghost history: seq<uint64>)
    returns (ok: bool, rest: nat, highest': uint64)
    requires Walked(chain, head, declared, history, offset, left, highest) && left > 0 && offset in chain && chain[offset].Array?
    ensures rest == left - Wanted(left, chain[offset].capacity) < left
    ensures ok ==> Walked(chain, head, declared, history + [offset], chain[offset].next, rest, highest')
    ensures !ok ==> !NoRevisit(Path(chain, head, declared))
  {
    var a := chain[offset];
    rest := left - Wanted(left, a.capacity);
    Visited(chain, head, declared, history, offset, left, highest);
    ok, highest' := CheckLink(chain, head, offset, a.next, rest, highest, history + [offset]);
    if !ok {
      assert a.next in Links(chain);
      Repeats(chain, history + [offset], a.next, rest, Path(chain, head, declared));
    }
  }

  lemma SlotsStep(chain: Chain, offset: uint64, n: nat, done: seq<Slot>)
    requires n > 0 && offset in chain && chain[offset].Array?
    ensures var a := chain[offset];
            done + Slots(chain, offset, n) == done + ArraySlots(a, n) + Slots(chain, a.next, n - Wanted(n, a.capacity))
  {
    var a := chain[offset];
    assert done + (ArraySlots(a, n) + Slots(chain, a.next, n - Wanted(n, a.capacity)))
        == done + ArraySlots(a, n) + Slots(chain, a.next, n - Wanted(n, a.capacity));
  }

  /** The checks so far were about `done`, and the slots from `offset` on make up the rest. */
  ghost predicate Examined(chain: Chain, status: Statuses, head: uint64, declared: nat, offset: uint64, remaining: nat,
                           done: seq<Slot>, missing: bool, previous: uint64) {
    && SettledSoFar(status, done, missing, previous) && Clean(status, done)
    && done + Slots(chain, offset, remaining) == Slots(chain, head, declared)
  }

  lemma ExaminedNext(chain: Chain, status: Statuses, head: uint64, declared: nat, offset: uint64, remaining: nat,
                     done: seq<Slot>, missing: bool, previous: uint64)
    requires remaining > 0 && offset in chain && chain[offset].Array?
    requires done + Slots(chain, offset, remaining) == Slots(chain, head, declared) && Clean(status, done)
    requires SettledSoFar(status, done + ArraySlots(chain[offset], remaining), missing, previous)
    requires Clean(status, ArraySlots(chain[offset], remaining))
    ensures var a := chain[offset];
            Examined(chain, status, head, declared, a.next, remaining - Wanted(remaining, a.capacity), done + ArraySlots(a, remaining), missing, previous)
  {
    SlotsStep(chain, offset, remaining, done);
  }

  lemma Finished(chain: Chain, status: Statuses, head: uint64, declared: nat, offset: uint64, remaining: nat,
                 done: seq<Slot>, missing: bool, previous: uint64)
    requires Examined(chain, status, head, declared, offset, remaining, done, missing, previous)
    requires remaining == 0 || offset !in chain || !chain[offset].Array?
    ensures Settled(status, Slots(chain, head, declared)) && Clean(status, Slots(chain, head, declared))
  {
    assert done + [] == done;
  }

  /** Slots that cannot go on spoil the whole. */
  lemma ArrayFails(chain: Chain, status: Statuses, head: uint64, declared: nat, offset: uint64, remaining: nat, done: seq<Slot>)
    requires remaining > 0 && offset in chain && chain[offset].Array?
    requires done + Slots(chain, offset, remaining) == Slots(chain, head, declared)
    requires !GoOn(status, done, ArraySlots(chain[offset], remaining))
    ensures !(Clean(status, Slots(chain, head, declared)) && Settled(status, Slots(chain, head, declared)))
  {
    var all, more := Slots(chain, head, declared), ArraySlots(chain[offset], remaining);
    SlotsStep(chain, offset, remaining, done);
    assert forall i :: 0 <= i < |done + more| ==> all[i] == (done + more)[i];
    assert forall i :: 0 <= i < |more| ==> all[|done| + i] == more[i];
  }

  /** Succeeds exactly if the chain can be walked, no slot leads to garbage, no valid entry follows a
      missing one and the valid ones ascend. */
  method ValidateSuffix(chain: Chain, status: Statuses, head: uint64, declared: uint64) returns (ok: bool)
    ensures ok <==> Recoverable(chain, status, head, declared)
  {
    var offset: uint64, remaining: nat, highest: uint64 := head, declared, head;
    var missing, previous: uint64 := false, 0;
    ghost var done: seq<Slot>, history: seq<uint64> := [], [];
    while remaining > 0 && offset in chain && chain[offset].Array?
      invariant Examined(chain, status, head, declared, offset, remaining, done, missing, previous)
      invariant Walked(chain, head, declared, history, offset, remaining, highest)
      decreases remaining
    {
      var a := chain[offset];
      ghost var before := done;
      ok, missing, previous := CheckArray(status, a, remaining, missing, previous, done);
      if !ok {
        ArrayFails(chain, status, head, declared, offset, remaining, done);
        return;
      }
      done := done + ArraySlots(a, remaining);
      ExaminedNext(chain, status, head, declared, offset, remaining, before, missing, previous);
      ghost var at := offset;
      ok, remaining, highest := Follow(chain, head, declared, offset, remaining, highest, history);
      if !ok { return; }
      offset, history := a.next, history + [at];
    }
    Finished(chain, status, head, declared, offset, remaining, done, missing, previous);
    WalkEnds(chain, head, declared, history, offset, remaining, highest);
    return remaining == 0 || offset == 0 || (offset in chain && chain[offset].Cut?);
  }

  // ----- the first pass

  datatype Loaded = Failed | Complete(entries: seq<uint64>) | Recovered(entries: seq<uint64>)

  datatype Chunk = Good | Damaged | Garbled

  /** Takes entries from the slots of one array until one is not valid. */
  method TakeEntries(status: Statuses, slots: seq<uint64>) returns (taken: seq<uint64>, end: Chunk)
    ensures |taken| <= |slots| && taken == slots[..|taken|] && forall i :: 0 <= i < |taken| ==> taken[i] != 0 && status(taken[i]) == Valid
    ensures end.Good? <==> |taken| == |slots|
    ensures !end.Good? ==> slots[|taken|] == 0 || status(slots[|taken|]) != Valid
    ensures end.Garbled? ==> slots[|taken|] != 0 && status(slots[|taken|]) == Garbage
  {
    taken := [];
    for i := 0 to |slots|
      invariant taken == slots[..i] && forall k :: 0 <= k < i ==> slots[k] != 0 && status(slots[k]) == Valid
    {
      if slots[i] == 0 { return taken, Damaged; }
      match status(slots[i])
      case Missing => return taken, Damaged;
      case Garbage => return taken, Garbled;
      case Valid => taken := taken + [slots[i]];
    }
    return taken, Good;
  }

  /** The entries taken so far are valid slots; the rest of the declared slots lies ahead. */
  ghost predicate Taking(status: Statuses, all: seq<Slot>, kept: seq<uint64>, rest: seq<Slot>) {
    && |kept| + |rest| == |all| && all[|kept|..] == rest
    && forall i :: 0 <= i < |kept| ==> all[i] == Seen(kept[i]) && IsValid(status, all[i])
  }

  lemma TakeMore(status: Statuses, all: seq<Slot>, kept: seq<uint64>, a: ArrayState, n: nat, tail: seq<Slot>, taken: seq<uint64>)
    requires a.Array? && Taking(status, all, kept, ArraySlots(a, n) + tail)
    requires |taken| <= Available(a, n) && taken == a.slots[..|taken|]
    requires forall i :: 0 <= i < |taken| ==> taken[i] != 0 && status(taken[i]) == Valid
    ensures Taking(status, all, kept + taken, (ArraySlots(a, n) + tail)[|taken|..])
  {
    var rest := ArraySlots(a, n) + tail;
    forall i | 0 <= i < |kept + taken| ensures all[i] == Seen((kept + taken)[i]) && IsValid(status, all[i]) {
      if i >= |kept| {
        assert all[i] == rest[i - |kept|];
      }
    }
    assert all[|kept|..][|taken|..] == all[|kept| + |taken|..];
  }

  /** Keeps a prefix after checking that nothing valid lies behind it. */
  method RetainPrefix(chain: Chain, status: Statuses, head: uint64, declared: uint64, kept: seq<uint64>) returns (r: Loaded)
    requires ValidPrefix(status, Slots(chain, head, declared), kept)
    ensures r == if Recoverable(chain, status, head, declared) then Recovered(kept) else Failed
    ensures r.Recovered? ==> Retained(status, Slots(chain, head, declared), kept)
  {
    var ok := ValidateSuffix(chain, status, head, declared);
    if !ok { return Failed; }
    SettledRetains(status, Slots(chain, head, declared), kept);
    return Recovered(kept);
  }

  /** Keeps what was read before the damage, if that is asked for. */
  method RecoverPrefix(chain: Chain, status: Statuses, head: uint64, declared: uint64, kept: seq<uint64>, recover: bool, ghost rest: seq<Slot>)
    returns (r: Loaded)
    requires Taking(status, Slots(chain, head, declared), kept, rest) && (rest != [] ==> !IsValid(status, rest[0]))
    ensures !r.Complete? && (r.Recovered? <==> recover && Recoverable(chain, status, head, declared))
    ensures r.Recovered? ==> Retained(status, Slots(chain, head, declared), r.entries)
  {
    if !recover { return Failed; }
    PrefixEnds(status, Slots(chain, head, declared), kept, rest);
    r := RetainPrefix(chain, status, head, declared, kept);
  }

  lemma PrefixEnds(status: Statuses, all: seq<Slot>, kept: seq<uint64>, rest: seq<Slot>)
    requires Taking(status, all, kept, rest) && (rest != [] ==> !IsValid(status, rest[0]))
    ensures ValidPrefix(status, all, kept)
  {
    if rest != [] { assert all[|kept|] == all[|kept|..][0]; }
  }

  /** The slot where taking stopped is not valid, unless the array and the slots end there. */
  lemma StopsThere(status: Statuses, chain: Chain, a: ArrayState, n: nat, taken: nat)
    requires a.Array? && n > 0 && taken <= Available(a, n) && a.capacity > 0
    requires taken < Available(a, n) ==> a.slots[taken] == 0 || status(a.slots[taken]) != Valid
    requires taken == Available(a, n) ==> |a.slots| < a.capacity
    ensures var rest := (ArraySlots(a, n) + Slots(chain, a.next, n - Wanted(n, a.capacity)))[taken..];
            rest != [] ==> !IsValid(status, rest[0])
  {
    var all := ArraySlots(a, n) + Slots(chain, a.next, n - Wanted(n, a.capacity));
    if taken < |all| {
      assert all[taken..][0] == all[taken];
      assert taken < Wanted(n, a.capacity) ==> all[taken] == ArraySlots(a, n)[taken];
    }
  }

  /** Where taking stopped, the slot is not valid; if it leads to garbage nothing can be recovered. */
  lemma StopsShort(chain: Chain, status: Statuses, head: uint64, declared: nat, a: ArrayState, n: nat, tail: seq<Slot>, kept: seq<uint64>, taken: nat)
    requires a.Array? && Taking(status, Slots(chain, head, declared), kept, ArraySlots(a, n) + tail)
    requires taken < Available(a, n) && (a.slots[taken] == 0 || status(a.slots[taken]) != Valid)
    ensures !Loadable(chain, status, head, declared)
    ensures a.slots[taken] != 0 && status(a.slots[taken]) == Garbage ==> !Recoverable(chain, status, head, declared)
  {
    var all, rest := Slots(chain, head, declared), ArraySlots(a, n) + tail;
    assert all[|kept| + taken] == all[|kept|..][taken] == rest[taken] == Seen(a.slots[taken]);
  }

  /** Reads the slots of one array into `kept`, or ends the load: at the first slot that is not valid
      or where the file was cut. */
  method LoadArray(chain: Chain, status: Statuses, head: uint64, declared: uint64, a: ArrayState, n: nat, kept: seq<uint64>, recover: bool)
    returns (done: bool, r: Loaded)
    requires a.Array? && a.capacity > 0 && |a.slots| <= a.capacity && n > 0
    requires Taking(status, Slots(chain, head, declared), kept, ArraySlots(a, n) + Slots(chain, a.next, n - Wanted(n, a.capacity)))
    ensures done ==> !r.Complete? && (r.Recovered? <==> recover && Recoverable(chain, status, head, declared))
    ensures done && r.Recovered? ==> Retained(status, Slots(chain, head, declared), r.entries)
    ensures done ==> |a.slots| < a.capacity || !Loadable(chain, status, head, declared)
    ensures !done ==> |a.slots| == a.capacity && r.Complete?
    ensures !done ==> Taking(status, Slots(chain, head, declared), r.entries, Slots(chain, a.next, n - Wanted(n, a.capacity)))
  {
    ghost var tail := Slots(chain, a.next, n - Wanted(n, a.capacity));
    ghost var all := Slots(chain, head, declared);
    var taken, end := TakeEntries(status, a.slots[..Available(a, n)]);
    TakeMore(status, all, kept, a, n, tail, taken);
    if !end.Good? { StopsShort(chain, status, head, declared, a, n, tail, kept, |taken|); }
    done := !end.Good? || |a.slots| < a.capacity;
    if end.Garbled? {
      r := Failed;
    } else if done {
      StopsThere(status, chain, a, n, |taken|);
      r := RecoverPrefix(chain, status, head, declared, kept + taken, recover, (ArraySlots(a, n) + tail)[|taken|..]);
    } else {
      assert (ArraySlots(a, n) + tail)[|taken|..] == tail;
      r := Complete(kept + taken);
    }
  }

  /** The first pass before it stops. */
  ghost predicate Loading(chain: Chain, status: Statuses, head: uint64, declared: nat, kept: seq<uint64>,
                          history: seq<uint64>, offset: uint64, left: nat, highest: uint64) {
    && Taking(status, Slots(chain, head, declared), kept, Slots(chain, offset, left)) && |kept| + left == declared
    && Walked(chain, head, declared, history, offset, left, highest)
    && (Whole(chain, head, declared) <==> Whole(chain, offset, left))
  }

  /** All declared slots were taken. */
  lemma LoadEnds(chain: Chain, status: Statuses, head: uint64, declared: nat, kept: seq<uint64>, history: seq<uint64>, offset: uint64, highest: uint64)
    requires Loading(chain, status, head, declared, kept, history, offset, 0, highest)
    ensures Loadable(chain, status, head, declared)
  {
    WalkEnds(chain, head, declared, history, offset, 0, highest);
  }

  /** A chain that ends early, breaks off or is broken is not whole. */
  lemma LoadStops(chain: Chain, status: Statuses, head: uint64, declared: nat, kept: seq<uint64>, history: seq<uint64>, offset: uint64, left: nat, highest: uint64)
    requires Loading(chain, status, head, declared, kept, history, offset, left, highest) && left > 0
    requires offset !in chain || !chain[offset].Array?
    ensures !Loadable(chain, status, head, declared) && Slots(chain, offset, left) == []
    ensures Readable(chain, head, declared) <==> offset == 0 || (offset in chain && chain[offset].Cut?)
  {
  }

  /** Loads the declared entries: all of them exactly if every declared slot is there, in a whole
      array, and valid. Otherwise recovery keeps something exactly if the file is recoverable: the
      longest valid prefix of the declared slots, which ascends, and no slot behind it is valid. */
  method LoadEntries(chain: Chain, status: Statuses, head: uint64, declared: uint64, recover: bool) returns (r: Loaded)
    ensures r.Complete? <==> Loadable(chain, status, head, declared)
    ensures r.Recovered? <==> recover && !Loadable(chain, status, head, declared) && Recoverable(chain, status, head, declared)
    ensures r.Recovered? ==> Retained(status, Slots(chain, head, declared), r.entries)
    ensures r.Complete? ==> Taking(status, Slots(chain, head, declared), r.entries, []) && |r.entries| == declared
  {
    var offset: uint64, remaining: nat, highest: uint64 := head, declared, head;
    var kept: seq<uint64> := [];
    ghost var history: seq<uint64> := [];
    while remaining > 0 && offset in chain && chain[offset].Array?
      invariant Loading(chain, status, head, declared, kept, history, offset, remaining, highest)
      decreases remaining
    {
      var a := chain[offset];
      var done: bool;
      done, r := LoadArray(chain, status, head, declared, a, remaining, kept, recover);
      if done { return; }
      SameLength(status, Slots(chain, head, declared), kept, r.entries, a, remaining, Slots(chain, a.next, remaining - Wanted(remaining, a.capacity)));
      ghost var at := offset;
      var ok: bool;
      ok, remaining, highest := Follow(chain, head, declared, offset, remaining, highest, history);
      if !ok { return Failed; }
      kept, offset, history := r.entries, a.next, history + [at];
    }
    if remaining == 0 {
      LoadEnds(chain, status, head, declared, kept, history, offset, highest);
      return Complete(kept);
    }
    LoadStops(chain, status, head, declared, kept, history, offset, remaining, highest);
    if offset != 0 && (offset !in chain || chain[offset].Broken?) { return Failed; }
    r := RecoverPrefix(chain, status, head, declared, kept, recover, []);
  }

  lemma SameLength(status: Statuses, all: seq<Slot>, kept: seq<uint64>, more: seq<uint64>, a: ArrayState, n: nat, tail: seq<Slot>)
    requires a.Array? && Taking(status, all, kept, ArraySlots(a, n) + tail) && Taking(status, all, more, tail)
    ensures |more| == |kept| + Wanted(n, a.capacity)
  {
  }

  // ----- postings of a damaged file

  /** `p` is a posting list of which the file still shows `slots`. */
  ghost predicate Shows(slots: seq<Slot>, p: seq<uint64>) {
    Ascending(p) && |slots| <= |p| && forall i :: 0 <= i < |slots| && slots[i].Seen? && slots[i].entry != 0 ==> slots[i].entry == p[i]
  }

  /** The first `count` postings are not beyond `last`, the others are. */
  ghost predicate SplitsAt(p: seq<uint64>, count: nat, last: uint64) {
    && count <= |p|
    && (forall i :: 0 <= i < count ==> p[i] <= last)
    && (forall i :: count <= i < |p| ==> p[i] > last)
  }

  /** Whatever list the file was cut from, `count` is the number of its postings up to `last`. */
  ghost predicate CountsUpTo(slots: seq<Slot>, n: nat, count: nat, last: uint64) {
    forall p: seq<uint64> :: |p| == n && Shows(slots, p) ==> SplitsAt(p, count, last)
  }

  /** The postings counted so far: seen, ascending and not beyond `last`. */
  ghost predicate Counting(slots: seq<Slot>, count: nat, previous: uint64, last: uint64, rest: seq<Slot>) {
    && Rising(slots, count, last) && count + |rest| == |slots| && slots[count..] == rest
    && slots[count-1] == Seen(previous)
  }

  /** The first `k` slots hold postings up to `last`, at aligned offsets that rise. */
  ghost predicate Rising(slots: seq<Slot>, k: nat, last: uint64) {
    && 0 < k <= |slots|
    && (forall i :: 0 <= i < k ==> slots[i].Seen? && slots[i].entry != 0 && slots[i].entry <= last)
    && (forall i :: 0 < i < k ==> StepsUp(slots, i))
  }

  ghost predicate StepsUp(slots: seq<Slot>, i: nat)
    requires 0 < i < |slots|
  {
    slots[i-1].Seen? && slots[i].Seen? && slots[i].entry % 8 == 0 && slots[i].entry > slots[i-1].entry
  }

  /** Nothing to see at position `k`: the slots end, or this one lies behind the cut or is empty. */
  ghost predicate Nothing(slots: seq<Slot>, k: nat) {
    k >= |slots| || !slots[k].Seen? || slots[k].entry == 0
  }

  /** After `k` of `n` postings the count is known: all are counted, or the next one in sight is
      beyond `last`, or `last` itself was counted and no more is to be seen. */
  ghost predicate Known(slots: seq<Slot>, n: nat, last: uint64, k: nat) {
    && Rising(slots, k, last)
    && (|| k == n
        || (!Nothing(slots, k) && slots[k].entry % 8 == 0 && slots[k].entry > last)
        || (Nothing(slots, k) && slots[k-1].entry == last))
  }

  /** The postings that can be read decide how many of them are not beyond `last`. */
  ghost predicate Countable(slots: seq<Slot>, n: nat, last: uint64) {
    exists k: nat :: Known(slots, n, last, k)
  }

  /** Where counting cannot go on and has not ended, the count cannot be known. */
  lemma Stuck(slots: seq<Slot>, n: nat, count: nat, previous: uint64, last: uint64, rest: seq<Slot>)
    requires Counting(slots, count, previous, last, rest) && count < n
    requires !Nothing(rest, 0) ==> rest[0].entry % 8 != 0 || rest[0].entry <= previous
    requires Nothing(rest, 0) ==> previous != last
    ensures !Countable(slots, n, last)
  {
    assert |rest| > 0 ==> slots[count] == slots[count..][0];
    forall k: nat ensures !Known(slots, n, last, k) {
      RisesThrough(slots, k, count, last);
    }
  }

  lemma RisesThrough(slots: seq<Slot>, k: nat, i: nat, last: uint64)
    ensures Rising(slots, k, last) && 0 < i < k ==> !Nothing(slots, i) && StepsUp(slots, i)
  {
  }

  /** With `last` itself counted, or a later posting in sight, or the list at its end, the count is final. */
  lemma CountFinal(slots: seq<Slot>, n: nat, count: nat, previous: uint64, last: uint64, rest: seq<Slot>)
    requires Counting(slots, count, previous, last, rest)
    requires count == n || (if Nothing(rest, 0) then previous == last else rest[0].entry % 8 == 0 && rest[0].entry > last)
    ensures CountsUpTo(slots, n, count, last) && Countable(slots, n, last)
  {
    if rest != [] { assert slots[count] == slots[count..][0]; }
    assert Known(slots, n, last, count);
    forall p: seq<uint64> | |p| == n && Shows(slots, p) ensures SplitsAt(p, count, last) {
      if rest != [] { assert slots[count] == slots[count..][0]; }
      forall i | count <= i < |p| ensures p[i] > last {
        assert p[count-1] == previous;
      }
    }
  }

  lemma CountNone(slots: seq<Slot>, n: nat, last: uint64)
    requires n > 0 && slots != [] && slots[0].Seen? && slots[0].entry > last
    ensures CountsUpTo(slots, n, 0, last)
  {
    forall p: seq<uint64> | |p| == n && Shows(slots, p) ensures SplitsAt(p, 0, last) {
      assert p[0] > last;
    }
  }

  lemma CountStep(slots: seq<Slot>, count: nat, previous: uint64, last: uint64, rest: seq<Slot>)
    requires Counting(slots, count, previous, last, rest) && !Nothing(rest, 0)
    requires rest[0].entry % 8 == 0 && previous < rest[0].entry <= last
    ensures Counting(slots, count + 1, rest[0].entry, last, rest[1..])
  {
    assert slots[count] == slots[count..][0];
    assert StepsUp(slots, count);
    assert slots[count..][1..] == slots[count + 1..];
  }

  datatype Tallied = Tallying(count: nat, previous: uint64) | Final(count: nat) | Unreadable

  /** Looks at one slot. */
  method CountSlot(entry: uint64, count: nat, previous: uint64, last: uint64, ghost slots: seq<Slot>, ghost rest: seq<Slot>, ghost total: nat)
    returns (r: Tallied)
    requires Counting(slots, count, previous, last, rest) && rest != [] && rest[0] == Seen(entry) && count < total
    ensures r.Final? ==> CountsUpTo(slots, total, r.count, last) && Countable(slots, total, last)
    ensures r.Unreadable? ==> !Countable(slots, total, last)
    ensures r.Tallying? ==> r.count == count + 1 && Counting(slots, r.count, r.previous, last, rest[1..])
  {
    if (entry == 0 && previous == last) || (entry > last && entry % 8 == 0) {
      CountFinal(slots, total, count, previous, last, rest);
      r := Final(count);
    } else if entry == 0 || entry % 8 != 0 || entry <= previous {
      Stuck(slots, total, count, previous, last, rest);
      r := Unreadable;
    } else {
      CountStep(slots, count, previous, last, rest);
      r := Tallying(count + 1, entry);
    }
  }

  /** Counts the available slots of one array. */
  method CountSlots(a: ArrayState, n: nat, count: nat, previous: uint64, last: uint64,
                    ghost slots: seq<Slot>, ghost tail: seq<Slot>, ghost total: nat) returns (r: Tallied)
    requires a.Array? && Counting(slots, count, previous, last, ArraySlots(a, n) + tail) && count + n <= total
    ensures r.Final? ==> CountsUpTo(slots, total, r.count, last) && Countable(slots, total, last)
    ensures r.Unreadable? ==> !Countable(slots, total, last)
    ensures r.Tallying? ==> r.count == count + Available(a, n) && Counting(slots, r.count, r.previous, last, (ArraySlots(a, n) + tail)[Available(a, n)..])
  {
    r := Tallying(count, previous);
    var k := Available(a, n);
    ghost var whole := ArraySlots(a, n) + tail;
    assert whole[0..] == whole;
    for i := 0 to k
      invariant r.Tallying? && r.count == count + i && Counting(slots, r.count, r.previous, last, whole[i..])
    {
      assert whole[i..][0] == ArraySlots(a, n)[i] == Seen(a.slots[i]) && whole[i..][1..] == whole[i+1..];
      r := CountSlot(a.slots[i], r.count, r.previous, last, slots, whole[i..], total);
      if !r.Tallying? { return; }
    }
  }

  /** Counts what one array shows; the count is final where the array was cut short. */
  method CountArray(a: ArrayState, n: nat, count: nat, previous: uint64, last: uint64,
                    ghost slots: seq<Slot>, ghost tail: seq<Slot>, ghost total: nat) returns (r: Tallied)
    requires a.Array? && Counting(slots, count, previous, last, ArraySlots(a, n) + tail) && count + n == total
    ensures r.Final? ==> CountsUpTo(slots, total, r.count, last) && Countable(slots, total, last)
    ensures r.Unreadable? ==> !Countable(slots, total, last)
    ensures r.Tallying? ==> r.count == count + Wanted(n, a.capacity) && Counting(slots, r.count, r.previous, last, tail)
  {
    var k, w := Available(a, n), Wanted(n, a.capacity);
    r := CountSlots(a, n, count, previous, last, slots, tail, total);
    if r.Tallying? && k < w {
      ghost var rest := (ArraySlots(a, n) + tail)[k..];
      assert rest[0] == ArraySlots(a, n)[k] == Gone;
      if r.previous == last {
        CountFinal(slots, total, r.count, r.previous, last, rest);
        r := Final(r.count);
      } else {
        Stuck(slots, total, r.count, r.previous, last, rest);
        r := Unreadable;
      }
    } else if r.Tallying? {
      assert (ArraySlots(a, n) + tail)[w..] == tail;
    }
  }

  /** How the count of postings up to `last` stands when the walk has come to `offset`. */
  ghost predicate CountingOn(chain: Chain, head: uint64, n: nat, slots: seq<Slot>, count: nat, previous: uint64, last: uint64,
                             history: seq<uint64>, offset: uint64, left: nat, highest: uint64) {
    && Counting(slots, count, previous, last, Slots(chain, offset, left)) && count + left == n + 1
    && Walked(chain, head, n, history, offset, left, highest)
  }

  ghost predicate Walkable(chain: Chain, head: uint64, n: nat) {
    Readable(chain, head, n) && NoRevisit(Path(chain, head, n))
  }

  /** Counts a DATA object's postings up to the last recovered entry. An answer is right for every
      list that the readable part of the file may have been cut from, and on a chain that can be
      walked there is one exactly if that part decides the count. */
  method RecoveredCount(chain: Chain, declared: uint64, inline: uint64, head: uint64, last: uint64) returns (r: Result<nat>)
    requires declared > 0 && inline != 0
    ensures r.Ok? ==> CountsUpTo([Seen(inline)] + Slots(chain, head, declared - 1), declared, r.value, last)
    ensures r.Ok? ==> inline > last || Countable([Seen(inline)] + Slots(chain, head, declared - 1), declared, last)
    ensures Walkable(chain, head, declared - 1) ==>
              (r.Ok? <==> inline > last || Countable([Seen(inline)] + Slots(chain, head, declared - 1), declared, last))
  {
    ghost var slots := [Seen(inline)] + Slots(chain, head, declared - 1);
    if inline > last {
      CountNone(slots, declared, last);
      return Ok(0);
    }
    CountStarts(chain, head, declared - 1, slots, inline, last);
    r := CountFrom(chain, declared, inline, head, last, slots);
  }

  /** Counts what one array shows and follows its link. */
  method CountNext(chain: Chain, head: uint64, n: uint64, count: nat, previous: uint64, last: uint64, offset: uint64, left: nat, highest: uint64,
                   ghost slots: seq<Slot>, ghost history: seq<uint64>) returns (c: Tallied, next: uint64, rest: nat, highest': uint64)
    requires CountingOn(chain, head, n, slots, count, previous, last, history, offset, left, highest)
    requires left > 0 && offset in chain && chain[offset].Array?
    ensures rest < left
    ensures CountSoFar(chain, head, n, slots, c, last, history + [offset], next, rest, highest')
  {
    var a := chain[offset];
    next := a.next;
    c := CountArray(a, left, count, previous, last, slots, Slots(chain, a.next, left - Wanted(left, a.capacity)), n + 1);
    var ok: bool;
    ok, rest, highest' := Follow(chain, head, n, offset, left, highest, history);
    if c.Tallying? && !ok { c := Unreadable; }
  }

  method CountFrom(chain: Chain, declared: uint64, inline: uint64, head: uint64, last: uint64, ghost slots: seq<Slot>) returns (r: Result<nat>)
    requires declared > 0 && CountSoFar(chain, head, declared - 1, slots, Tallying(1, inline), last, [], head, declared - 1, head)
    ensures r.Ok? ==> CountsUpTo(slots, declared, r.value, last) && Countable(slots, declared, last)
    ensures r.Err? && Walkable(chain, head, declared - 1) ==> !Countable(slots, declared, last)
  {
    var c, remaining: nat, offset: uint64, highest: uint64 := Tallying(1, inline), declared - 1, head, head;
    ghost var history: seq<uint64> := [];
    while c.Tallying? && remaining > 0 && offset in chain && chain[offset].Array?
      invariant CountSoFar(chain, head, declared - 1, slots, c, last, history, offset, remaining, highest)
      decreases remaining
    {
      ghost var longer := history + [offset];
      c, offset, remaining, highest := CountNext(chain, head, declared - 1, c.count, c.previous, last, offset, remaining, highest, slots, history);
      history := longer;
    }
    var ended := remaining == 0 || offset == 0 || (offset in chain && chain[offset].Cut?);
    if c.Tallying? { CountStops(chain, head, declared - 1, slots, c.count, c.previous, last, history, offset, remaining, highest); }
    r := if c.Final? || (c.Tallying? && ended && (remaining == 0 || c.previous == last)) then Ok(c.count) else Err(CorruptObject);
  }

  lemma CountStarts(chain: Chain, head: uint64, n: nat, slots: seq<Slot>, inline: uint64, last: uint64)
    requires inline != 0 && inline <= last && slots == [Seen(inline)] + Slots(chain, head, n)
    ensures CountSoFar(chain, head, n, slots, Tallying(1, inline), last, [], head, n, head)
  {
    assert slots[1..] == Slots(chain, head, n);
    assert [] + Path(chain, head, n) == Path(chain, head, n);
  }

  ghost predicate CountSoFar(chain: Chain, head: uint64, n: nat, slots: seq<Slot>, c: Tallied, last: uint64,
                             history: seq<uint64>, offset: uint64, left: nat, highest: uint64) {
    match c
    case Tallying(count, previous) => CountingOn(chain, head, n, slots, count, previous, last, history, offset, left, highest)
    case Final(count) => CountsUpTo(slots, n + 1, count, last) && Countable(slots, n + 1, last)
    case Unreadable => !Countable(slots, n + 1, last) || !NoRevisit(Path(chain, head, n))
  }

  /** At the end of the walk the count is known if all postings are counted or the last is `last`. */
  lemma CountStops(chain: Chain, head: uint64, n: nat, slots: seq<Slot>, count: nat, previous: uint64, last: uint64,
                   history: seq<uint64>, offset: uint64, left: nat, highest: uint64)
    requires CountingOn(chain, head, n, slots, count, previous, last, history, offset, left, highest)
    requires left == 0 || offset !in chain || !chain[offset].Array?
    ensures left == 0 || previous == last ==> CountsUpTo(slots, n + 1, count, last) && Countable(slots, n + 1, last)
    ensures left > 0 && previous != last ==> !Countable(slots, n + 1, last)
    ensures left > 0 && Readable(chain, head, n) ==> offset == 0 || (offset in chain && chain[offset].Cut?)
  {
    if left == 0 || previous == last {
      CountFinal(slots, n + 1, count, previous, last, []);
    } else {
      Stuck(slots, n + 1, count, previous, last, []);
    }
  }
}
