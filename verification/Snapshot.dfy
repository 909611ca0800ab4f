/** Visits over a frozen population while a writer keeps appending
    (go/journal/indexed_snapshot_visit.go, go/journal/indexed_snapshot_capture.go). */
module Snapshot {
  import opened JournalGraph
  import opened HashIndex
  import opened SnapshotGrowth

  datatype Outcome = Done | Corrupt | Busy | Closed | InvalidName | Undeclared

  /** How the visit of a run of slots ended: `Clipped` at the first entry that came later. */
  datatype Progress = Failed | Clipped | Advanced(last: uint64)

  datatype Step = Stop(ok: bool) | Next(off: uint64, count: nat, previous: uint64)

  datatype DataHeader = DataHeader(
    payload: bytes, hash: uint64, nextHash: uint64, nextField: uint64, entryOffset: uint64, entryArrayOffset: uint64, nEntries: uint64)

  /** The payload starts with the field's name and an equals sign. */
  predicate IsValueOf(payload: bytes, field: bytes) {
    |payload| > |field| && payload[..|field|] == field && payload[|field|] == EQUALS
  }

  function ValueOf(payload: bytes, field: bytes): bytes
    requires IsValueOf(payload, field)
  {
    payload[|field| + 1..]
  }

  /** The payload is an accepted value of the field. */
  ghost predicate Wanted(payload: bytes, field: bytes, accept: bytes -> bool) {
    exists v :: payload == field + [EQUALS] + v && accept(v)
  }

  lemma WantedValue(payload: bytes, field: bytes, accept: bytes -> bool)
    requires IsValueOf(payload, field)
    ensures Wanted(payload, field, accept) <==> accept(ValueOf(payload, field))
  {
    assert payload == field + [EQUALS] + ValueOf(payload, field);
    forall v | payload == field + [EQUALS] + v ensures v == ValueOf(payload, field) {
      assert (field + [EQUALS] + v)[|field| + 1..] == v;
    }
  }

  /** What a visit of the values `ds` hands out: the postings of every accepted value. */
  ghost function Handed(j: Journal, ds: seq<uint64>, field: bytes, accept: bytes -> bool): seq<uint64> {
    if ds == [] then [] else HandedOf(j, ds[0], field, accept) + Handed(j, ds[1..], field, accept)
  }

  ghost function HandedOf(j: Journal, d: uint64, field: bytes, accept: bytes -> bool): seq<uint64> {
    if d in j.data && Wanted(j.data[d].payload, field, accept) then PostingList(j, d) else []
  }

  class IndexedSnapshot {
    /** The file at each moment since capture. The i-th scalar read returns the value of moment
        `stale(i)` when it goes through a cached window, of moment `now(i)` when it does not. */
    const file: seq<Journal>
    const stale: nat -> nat
    const now: nat -> nat
    const hasher: Hasher
    const maxObject: uint64
    const maxEntry: uint64

    var readCount: nat
    var busy: bool
    var closed: bool
    /** The heads of the declared fields' chains, as captured. */
    var fields: map<bytes, uint64>
    /** The entries handed to the caller, in order. */
    var visited: seq<uint64>

    constructor (file: seq<Journal>, stale: nat -> nat, now: nat -> nat, hasher: Hasher, maxObject: uint64, maxEntry: uint64, fields: map<bytes, uint64>)
      ensures this.file == file && this.stale == stale && this.now == now && this.hasher == hasher
      ensures this.maxObject == maxObject && this.maxEntry == maxEntry && this.fields == fields
      ensures visited == [] && !busy && !closed
    {
      this.file, this.stale, this.now, this.hasher, this.fields := file, stale, now, hasher, fields;
      this.maxObject, this.maxEntry, readCount, busy, closed, visited := maxObject, maxEntry, 0, false, false, [];
    }

    /** Time moves forward, and a cached window is never newer than the file. */
    ghost predicate Clock() {
      && |file| > 0
      && (forall i: nat :: stale(i) <= now(i) < |file|)
      && (forall i: nat, k: nat :: i <= k ==> now(i) <= now(k))
    }

    ghost predicate Ready() {
      Clock() && History(file, hasher, maxObject, maxEntry)
    }

    ghost function Last(): Journal
      requires |file| > 0
    {
      file[|file|-1]
    }

    method Cached() returns (t: nat)
      requires Clock()
      modifies this`readCount
      ensures t < |file| && readCount == old(readCount) + 1 && t <= now(old(readCount))
    {
      t := stale(readCount);
      readCount := readCount + 1;
    }

    method Uncached() returns (t: nat)
      requires Clock()
      modifies this`readCount
      ensures t < |file| && readCount == old(readCount) + 1 && t == now(old(readCount))
    {
      t := now(readCount);
      readCount := readCount + 1;
    }

    // ----- posting arrays

    /** From moment `since` on, the `count` slots of the chain at `off` are filled. */
    ghost predicate FilledSince(since: nat, off: uint64, count: nat) {
      since < |file| && forall t {:trigger FilledAt(t, off, count)} :: since <= t < |file| ==> FilledAt(t, off, count)
    }

    ghost predicate FilledAt(t: nat, off: uint64, count: nat)
      requires t < |file|
    {
      Filled(file[t].arrays, off, count)
    }

    /** The first `kept` of these entries were captured and the others came later. */
    ghost predicate Split(rest: seq<uint64>, kept: nat, previous: uint64)
      requires |file| > 0
    {
      && kept <= |rest| && Ascending([previous] + rest)
      && forall i :: 0 <= i < |rest| ==> if i < kept then rest[i] <= maxEntry && rest[i] in file[0].entries else rest[i] > maxEntry
    }

    ghost predicate Walking(since: nat, off: uint64, count: nat, kept: nat, previous: uint64)
      requires |file| > 0
    {
      && FilledSince(since, off, count) && Filled(file[0].arrays, off, kept)
      && Split(ChainItems(Last().arrays, off, count), kept, previous)
    }

    lemma GrowsToLast(t: nat)
      requires Ready() && t < |file|
      ensures Grows(file[t], Last())
    {
      assert Between(file, t, |file| - 1);
    }

    /** A slot that is filled readCount as what it stays. */
    lemma SlotValue(t: nat, off: uint64, pos: nat)
      requires Ready() && t < |file| && off in file[t].arrays && pos < |file[t].arrays[off].items|
      ensures off in Last().arrays && |Last().arrays[off].items| == |file[t].arrays[off].items|
      ensures file[t].arrays[off].items[pos] != 0 ==> file[t].arrays[off].items[pos] == Last().arrays[off].items[pos]
    {
      GrowsToLast(t);
    }

    /** The slot is one of the `count` due ones, in an array that was captured. */
    ghost predicate SlotDue(off: uint64, pos: nat, since: nat, count: nat) {
      && Ready() && FilledSince(since, off, count) && pos < count
      && off in file[0].arrays && pos < |file[0].arrays[off].items|
      && off in Last().arrays && pos < |Last().arrays[off].items|
    }

    /** A due slot can be read at any moment, and is filled from moment `since` on. */
    lemma SlotReads(since: nat, t: nat, off: uint64, count: nat, pos: nat)
      requires SlotDue(off, pos, since, count) && t < |file|
      ensures off in file[t].arrays && pos < |file[t].arrays[off].items|
      ensures t >= since || file[t].arrays[off].items[pos] != 0 ==>
                file[t].arrays[off].items[pos] == Last().arrays[off].items[pos] != 0
    {
      assert Between(file, 0, t);
      SlotValue(t, off, pos);
      if t >= since { SlotFilled(since, t, off, count, pos); }
    }

    lemma SlotFilled(since: nat, t: nat, off: uint64, count: nat, pos: nat)
      requires Ready() && FilledSince(since, off, count) && since <= t < |file| && pos < count
      requires off in file[0].arrays && pos < |file[0].arrays[off].items|
      ensures off in file[t].arrays && pos < |file[t].arrays[off].items| && file[t].arrays[off].items[pos] != 0
    {
      assert Between(file, 0, t) && FilledAt(t, off, count);
      FilledTail(file[t].arrays, off, count);
    }

    /** Reads one slot; with `clip`, an empty one is read again past the cache. */
    method ReadSlot(off: uint64, pos: nat, clip: bool, ghost since: nat, ghost count: nat, ghost good: bool) returns (r: Result<uint64>)
      requires Clock()
      requires good ==> SlotDue(off, pos, since, count) && if clip then since <= now(readCount) else since == 0
      modifies this`readCount
      ensures readCount >= old(readCount)
      ensures good ==> SlotDue(off, pos, since, count) && r == Ok(Last().arrays[off].items[pos])
    {
      var t := Cached();
      if good { SlotReads(since, t, off, count, pos); }
      if off !in file[t].arrays || pos >= |file[t].arrays[off].items| { return Err(CorruptObject); }
      var item: uint64 := file[t].arrays[off].items[pos];
      if clip && item == 0 {
        t := Uncached();
        if good { SlotReads(since, t, off, count, pos); }
        if off !in file[t].arrays || pos >= |file[t].arrays[off].items| { return Err(CorruptObject); }
        item := file[t].arrays[off].items[pos];
        if item == 0 { return Err(CorruptObject); }
      }
      return Ok(item);
    }

    method VisitEntry(off: uint64) returns (ok: bool)
      requires Clock()
      modifies this`readCount, this`visited
      ensures readCount >= old(readCount)
      ensures ok ==> visited == old(visited) + [off]
      ensures Ready() && off in file[0].entries ==> ok
    {
      if off > maxObject { return false; }
      var t := Cached();
      if off !in file[t].entries {
        if Ready() { assert Between(file, 0, t); }
        return false;
      }
      visited := visited + [off];
      return true;
    }

    /** The slots from `pos` on: the next is captured, or every captured one was visited. */
    method VisitSlot(off: uint64, pos: nat, previous: uint64, clip: bool,
                     ghost since: nat, ghost rest: seq<uint64>, ghost kept: nat, ghost good: bool) returns (p: Progress)
      requires Clock()
      requires good ==>
                 && SlotDue(off, pos, since, |rest|) && (if clip then since <= now(readCount) else since == 0 && kept == |rest|)
                 && Last().arrays[off].items[pos] == rest[pos]
                 && kept <= |rest| && (if pos < kept then previous < rest[pos] <= maxEntry && rest[pos] in file[0].entries else rest[pos] > maxEntry)
      modifies this`readCount, this`visited
      ensures readCount >= old(readCount)
      ensures good ==> p == if pos < kept then Advanced(rest[pos]) else Clipped
      ensures good ==> visited == old(visited) + if pos < kept then [rest[pos]] else []
    {
      var r := ReadSlot(off, pos, clip, since, |rest|, good);
      if r.Err? { return Failed; }
      if clip && r.value > maxEntry { return Clipped; }
      if r.value <= previous || r.value > maxEntry { return Failed; }
      var ok := VisitEntry(r.value);
      if !ok { return Failed; }
      return Advanced(r.value);
    }

    /** The due slots of the array that a walk has reached. */
    lemma DueSlots(since: nat, off: uint64, count: nat, pos: nat)
      requires Ready() && FilledSince(since, off, count) && off in file[0].arrays
      requires pos < count && pos < |file[0].arrays[off].items|
      ensures SlotDue(off, pos, since, count)
      ensures |ChainItems(Last().arrays, off, count)| == count
      ensures ChainItems(Last().arrays, off, count)[pos] == Last().arrays[off].items[pos]
    {
      SlotValue(0, off, pos);
      assert FilledAt(|file| - 1, off, count);
      FilledTail(Last().arrays, off, count);
    }

    lemma SplitAt(rest: seq<uint64>, kept: nat, previous: uint64, pos: nat)
      requires |file| > 0 && Split(rest, kept, previous) && pos < |rest|
      ensures (if pos == 0 then previous else rest[pos-1]) < rest[pos]
      ensures if pos < kept then rest[pos] <= maxEntry && rest[pos] in file[0].entries else rest[pos] > maxEntry
    {
      var all := [previous] + rest;
      assert all[pos + 1] == rest[pos] && all[pos] == if pos == 0 then previous else rest[pos-1];
    }

    ghost predicate InTime(clip: bool, since: nat, whole: bool)
      reads this`readCount
    {
      if clip then since <= now(readCount) else since == 0 && whole
    }

    /** Visits the first `used` slots of an array, up to the first entry that came later. */
    method VisitArrayItems(off: uint64, used: nat, previous: uint64, clip: bool,
                           ghost since: nat, ghost rest: seq<uint64>, ghost kept: nat, ghost good: bool) returns (p: Progress)
      requires Clock()
      requires good ==>
                 && Ready() && Walking(since, off, |rest|, kept, previous) && rest == ChainItems(Last().arrays, off, |rest|)
                 && off in file[0].arrays && used <= |rest| && used <= |file[0].arrays[off].items| && InTime(clip, since, kept == |rest|)
      modifies this`readCount, this`visited
      ensures readCount >= old(readCount)
      ensures good ==> kept <= |rest| && visited == old(visited) + rest[..if used <= kept then used else kept]
      ensures good ==> p == if used <= kept then Advanced(if used == 0 then previous else rest[used-1]) else Clipped
    {
      var last := previous;
      for pos := 0 to used
        invariant readCount >= old(readCount)
        invariant good ==> pos <= kept && visited == old(visited) + rest[..pos]
        invariant good ==> last == if pos == 0 then previous else rest[pos-1]
      {
        if good {
          DueSlots(since, off, |rest|, pos);
          SplitAt(rest, kept, previous, pos);
          Later(old(readCount), readCount, clip, since);
          if pos < kept { TakeOneMore(rest, pos); }
        }
        p := VisitSlot(off, pos, last, clip, since, rest, kept, good);
        if !p.Advanced? { return; }
        last := p.last;
      }
      return Advanced(last);
    }

    lemma Later(before: nat, after: nat, clip: bool, since: nat)
      requires Clock() && before <= after
      ensures clip && since <= now(before) ==> since <= now(after)
    {
    }

    /** What a walk still has to visit. */
    ghost function Rest(off: uint64, count: nat): seq<uint64>
      requires |file| > 0
    {
      ChainItems(Last().arrays, off, count)
    }

    /** The captured entries of a chain are those it held at capture. */
    lemma KeptEntries(since: nat, off: uint64, count: nat, kept: nat, previous: uint64)
      requires Ready() && Walking(since, off, count, kept, previous)
      ensures |Rest(off, count)| == count && kept <= count
      ensures Rest(off, count)[..kept] == ChainItems(file[0].arrays, off, kept)
    {
      GrowsToLast(0);
      assert FilledAt(|file| - 1, off, count);
      ChainKept(file[0].arrays, Last().arrays, off, kept);
      FilledPrefix(Last().arrays, off, kept, count);
    }

    /** An array within the captured bounds was there at capture; beyond them nothing is left. */
    lemma ArrayReached(since: nat, off: uint64, count: nat, kept: nat, previous: uint64)
      requires Ready() && Walking(since, off, count, kept, previous) && count > 0
      ensures off <= maxObject <==> off in file[0].arrays
      ensures off > maxObject ==> kept == 0
      ensures off in file[0].arrays ==> file[0].arrays[off].items != []
    {
      assert FilledAt(|file| - 1, off, count);
      FilledTail(Last().arrays, off, count);
      assert Moment(file, 0, maxObject, maxEntry) && Moment(file, |file| - 1, maxObject, maxEntry);
      if kept > 0 { FilledTail(file[0].arrays, off, kept); }
    }

    lemma LinkAt(since: nat, t: nat, off: uint64, count: nat)
      requires Ready() && since <= t < |file| && FilledSince(since, off, count) && off in file[0].arrays
      requires |file[0].arrays[off].items| < count
      ensures off in file[t].arrays && off in Last().arrays
      ensures file[t].arrays[off].next == Last().arrays[off].next > off
      ensures Filled(file[t].arrays, Last().arrays[off].next, count - |file[0].arrays[off].items|)
    {
      assert Between(file, 0, t);
      GrowsToLast(t);
      assert FilledAt(t, off, count);
      FilledTail(file[t].arrays, off, count);
      assert Moment(file, t, maxObject, maxEntry);
    }

    /** The walk continues in the next array. */
    lemma NextArray(since: nat, off: uint64, count: nat, kept: nat, previous: uint64)
      requires Ready() && Walking(since, off, count, kept, previous) && off in file[0].arrays
      requires |file[0].arrays[off].items| < count && |file[0].arrays[off].items| <= kept
      ensures off in Last().arrays && Last().arrays[off].next > off
      ensures var cap, next := |file[0].arrays[off].items|, Last().arrays[off].next;
              && |Rest(off, count)| == count && cap > 0
              && Walking(since, next, count - cap, kept - cap, Rest(off, count)[cap-1])
              && Rest(next, count - cap) == Rest(off, count)[cap..]
    {
      var cap := |file[0].arrays[off].items|;
      ArrayReached(since, off, count, kept, previous);
      LinkAt(since, |file| - 1, off, count);
      var next := Last().arrays[off].next;
      var left := count - cap;
      forall t | since <= t < |file| ensures FilledAt(t, next, left) {
        LinkAt(since, t, off, count);
      }
      GrowsToLast(0);
      CapturedLink(off, kept);
      assert FilledAt(|file| - 1, off, count);
      assert Rest(off, count) == Last().arrays[off].items + Rest(next, count - cap);
      SplitTail(Rest(off, count), kept, previous, cap);
    }

    lemma CapturedLink(off: uint64, kept: nat)
      requires Ready() && off in file[0].arrays && Filled(file[0].arrays, off, kept) && off in Last().arrays
      requires |file[0].arrays[off].items| <= kept
      ensures Filled(file[0].arrays, Last().arrays[off].next, kept - |file[0].arrays[off].items|)
    {
      GrowsToLast(0);
      if kept > |file[0].arrays[off].items| {
        FilledTail(file[0].arrays, off, kept);
      }
    }

    lemma SplitTail(rest: seq<uint64>, kept: nat, previous: uint64, cap: nat)
      requires |file| > 0 && Split(rest, kept, previous) && 0 < cap <= kept && cap <= |rest|
      ensures Split(rest[cap..], kept - cap, rest[cap-1])
    {
      var all, tail := [previous] + rest, [rest[cap-1]] + rest[cap..];
      forall i, k | 0 <= i < k < |tail| ensures tail[i] < tail[k] {
        assert tail[i] == all[i + cap] && tail[k] == all[k + cap];
      }
    }

    /** Reads an array's capacity and its link. */
    method ReadArrayHeader(off: uint64) returns (r: Result<(nat, uint64)>, ghost t: nat)
      requires Clock()
      modifies this`readCount
      ensures readCount == old(readCount) + 1 && t < |file|
      ensures Ready() && off in file[0].arrays && file[0].arrays[off].items != [] ==>
                && r.Ok? && r.value.0 == |file[0].arrays[off].items|
                && off in file[t].arrays && r.value.1 == file[t].arrays[off].next
    {
      ghost var good := Ready() && off in file[0].arrays && file[0].arrays[off].items != [];
      var at := Cached();
      t := at;
      if good { assert Between(file, 0, t) && Moment(file, t, maxObject, maxEntry); }
      if off > maxObject || off !in file[at].arrays { return Err(CorruptObject), t; }
      var a := file[at].arrays[off];
      if |a.items| == 0 || (a.next != 0 && a.next <= off) { return Err(CorruptObject), t; }
      return Ok((|a.items|, a.next)), t;
    }

    /** The link to the next array; with `clip`, an empty one is read again past the cache. */
    method FollowLink(off: uint64, cached: uint64, clip: bool, ghost t: nat, ghost since: nat, ghost count: nat, ghost good: bool)
      returns (r: Result<uint64>)
      requires Clock() && t < |file|
      requires good ==>
                 && Ready() && FilledSince(since, off, count) && off in file[0].arrays && |file[0].arrays[off].items| < count
                 && off in file[t].arrays && cached == file[t].arrays[off].next && (if clip then since <= now(readCount) else since == 0)
      modifies this`readCount
      ensures readCount >= old(readCount)
      ensures good ==> off in Last().arrays && r == Ok(Last().arrays[off].next)
    {
      if good {
        GrowsToLast(t);
        if t >= since { LinkAt(since, t, off, count); }
      }
      if clip && cached == 0 {
        var fresh_ := Uncached();
        if good { LinkAt(since, fresh_, off, count); }
        if off !in file[fresh_].arrays || file[fresh_].arrays[off].next == 0 { return Err(CorruptObject); }
        if file[fresh_].arrays[off].next <= off { return Err(CorruptObject); }
        return Ok(file[fresh_].arrays[off].next);
      }
      return Ok(cached);
    }

    ghost predicate Due(since: nat, off: uint64, count: nat, kept: nat, previous: uint64, clip: bool)
      reads this`readCount
    {
      Ready() && Walking(since, off, count, kept, previous) && InTime(clip, since, kept == count)
    }

    /** The walk of a chain after `done` of its `count` slots were visited. */
    ghost predicate Resumes(s: Step, since: nat, off: uint64, count: nat, kept: nat, clip: bool)
      reads this`readCount
      requires s.Next?
    {
      && s.count <= count && count - s.count <= kept && Due(since, s.off, s.count, kept - (count - s.count), s.previous, clip)
      && |Rest(off, count)| == count && Rest(s.off, s.count) == Rest(off, count)[count - s.count..]
    }

    /** Goes on to the next array once a whole array was visited. */
    method NextStep(off: uint64, count: nat, capacity: nat, link: uint64, previous: uint64, last: uint64, clip: bool,
                    ghost t: nat, ghost since: nat, ghost kept: nat, ghost good: bool) returns (s: Step)
      requires Clock() && t < |file| && 0 < capacity < count
      requires good ==>
                 && Due(since, off, count, kept, previous, clip) && off in file[0].arrays && capacity == |file[0].arrays[off].items| <= kept
                 && off in file[t].arrays && link == file[t].arrays[off].next
                 && |Rest(off, count)| == count && last == Rest(off, count)[capacity-1]
      modifies this`readCount
      ensures readCount >= old(readCount)
      ensures s.Next? ==> s.count == count - capacity
      ensures good ==> s.Next? && Resumes(s, since, off, count, kept, clip)
    {
      if good { NextArray(since, off, count, kept, previous); }
      var next := FollowLink(off, link, clip, t, since, count, good);
      if next.Err? { return Stop(false); }
      return Next(next.value, count - capacity, last);
    }

    /** Visits one array of a chain and finds the next. */
    method VisitArray(off: uint64, count: nat, previous: uint64, clip: bool, ghost since: nat, ghost kept: nat, ghost good: bool)
      returns (s: Step)
      requires Clock() && count > 0
      requires good ==> Due(since, off, count, kept, previous, clip)
      modifies this`readCount, this`visited
      ensures readCount >= old(readCount)
      ensures s.Next? ==> s.count < count
      ensures good && s.Stop? ==> s.ok && |Rest(off, count)| == count && kept <= count && visited == old(visited) + Rest(off, count)[..kept]
      ensures good && s.Next? ==> Resumes(s, since, off, count, kept, clip) && visited == old(visited) + Rest(off, count)[..count - s.count]
    {
      ghost var rest: seq<uint64> := [];
      if good {
        ArrayReached(since, off, count, kept, previous);
        KeptEntries(since, off, count, kept, previous);
        rest := Rest(off, count);
      }
      if clip && off > maxObject { return Stop(true); }
      ghost var t: nat;
      var r: Result<(nat, uint64)>;
      r, t := ReadArrayHeader(off);
      if r.Err? { return Stop(false); }
      var capacity := r.value.0;
      var used := if count <= capacity then count else capacity;
      var p := VisitArrayItems(off, used, previous, clip, since, rest, kept, good);
      if p.Failed? { return Stop(false); }
      if p.Clipped? || used == count { return Stop(true); }
      if used == 0 { return Stop(false); }
      s := NextStep(off, count, capacity, r.value.1, previous, p.last, clip, t, since, kept, good);
    }

    /** The walk of a chain on its way to having handed out `goal`. */
    ghost predicate Underway(since: nat, off: uint64, count: nat, left: nat, previous: uint64, clip: bool, goal: seq<uint64>)
      reads this`readCount, this`visited
    {
      Due(since, off, count, left, previous, clip) && Reaches(visited, Rest(off, count), left, goal)
    }

    /** Visits one array on the way. */
    method VisitOnward(off: uint64, count: nat, previous: uint64, clip: bool, ghost since: nat, ghost left: nat, ghost goal: seq<uint64>, ghost good: bool)
      returns (s: Step, ghost more: nat)
      requires Clock() && count > 0
      requires good ==> Underway(since, off, count, left, previous, clip, goal)
      modifies this`readCount, this`visited
      ensures readCount >= old(readCount)
      ensures s.Next? ==> s.count < count
      ensures good && s.Stop? ==> s.ok && visited == goal
      ensures good && s.Next? ==> Underway(since, s.off, s.count, more, s.previous, clip, goal)
    {
      ghost var seen, rest := visited, if good then Rest(off, count) else [];
      s := VisitArray(off, count, previous, clip, since, left, good);
      more := 0;
      if good && s.Next? {
        ReachesOn(seen, rest, left, goal, count - s.count, visited);
        more := left - (count - s.count);
      }
    }

    /** Visits a chain: with `clip` up to the captured population, otherwise as a whole. */
    method VisitArrays(start: uint64, total: nat, before: uint64, clip: bool, ghost since: nat, ghost kept: nat, ghost good: bool)
      returns (ok: bool)
      requires Clock()
      requires good ==> Due(since, start, total, kept, before, clip)
      modifies this`readCount, this`visited
      ensures readCount >= old(readCount)
      ensures good ==> ok && visited == old(visited) + ChainItems(file[0].arrays, start, kept)
    {
      var off: uint64, count: nat, previous: uint64 := start, total, before;
      ghost var left: nat, goal := kept, visited + ChainItems(file[0].arrays, start, kept);
      if good { KeptEntries(since, start, total, kept, before); }
      while count > 0
        invariant readCount >= old(readCount)
        invariant good ==> Underway(since, off, count, left, previous, clip, goal)
        decreases count
      {
        var s: Step;
        s, left := VisitOnward(off, count, previous, clip, since, left, goal, good);
        if s.Stop? { return s.ok; }
        off, count, previous := s.off, s.count, s.previous;
      }
      if good { KeptEntries(since, off, 0, left, previous); }
      return true;
    }

    // ----- the postings of one DATA object

    lemma AtCapture(d: uint64)
      requires Ready() && d in file[0].data
      ensures d in Last().data && file[0].data[d].nEntries > 0 && Quiescent(file[0], hasher, maxObject, maxEntry)
      ensures Grows(file[0], Last()) && Published(file[0]) && Published(Last()) && Beyonds(file[0], Last(), maxObject, maxEntry)
    {
      assert Moment(file, 0, maxObject, maxEntry) && Moment(file, |file| - 1, maxObject, maxEntry);
      GrowsToLast(0);
    }

    /** The chain of a DATA object that had `count` postings at moment `since`. */
    lemma ChainSince(d: uint64, since: nat, t: nat)
      requires Ready() && d in file[0].data && since <= t < |file|
      ensures d in file[since].data && d in file[t].data && d in Last().data
      ensures file[since].data[d].nEntries >= file[0].data[d].nEntries > 0
      ensures file[since].data[d].nEntries > 1 ==> file[t].data[d].entryArrayOffset == Last().data[d].entryArrayOffset != 0
      ensures FilledAt(t, Last().data[d].entryArrayOffset, file[since].data[d].nEntries - 1)
    {
      assert Between(file, 0, since) && Between(file, since, t) && Moment(file, t, maxObject, maxEntry);
      GrowsToLast(t);
      CountedLater(file[since], file[t], Last(), d);
    }

    lemma ChainFilledSince(d: uint64, since: nat)
      requires Ready() && d in file[0].data && since < |file|
      ensures d in file[since].data && d in Last().data && 0 < file[0].data[d].nEntries <= file[since].data[d].nEntries
      ensures file[since].data[d].nEntries <= Last().data[d].nEntries
      ensures FilledSince(since, Last().data[d].entryArrayOffset, file[since].data[d].nEntries - 1)
    {
      ChainSince(d, since, since);
      GrowsToLast(since);
      var head, m := Last().data[d].entryArrayOffset, file[since].data[d].nEntries - 1;
      forall t | since <= t < |file| ensures FilledAt(t, head, m) {
        ChainSince(d, since, t);
      }
    }

    lemma ChainCaptured(d: uint64)
      requires Ready() && d in file[0].data
      ensures d in Last().data && file[0].data[d].nEntries > 0 && Published(Last())
      ensures var e, head := Last().data[d].entryOffset, Last().data[d].entryArrayOffset;
              && e == file[0].data[d].entryOffset != 0 && e <= maxEntry && e in file[0].entries
              && Filled(file[0].arrays, head, file[0].data[d].nEntries - 1)
              && PostingList(file[0], d) == [e] + ChainItems(file[0].arrays, head, file[0].data[d].nEntries - 1)
      ensures Partitioned(PostingList(Last(), d), file[0].data[d].nEntries, maxEntry, file[0].entries.Keys)
    {
      AtCapture(d);
      KeptChain(file[0], Last(), d);
      PostingsPartitioned(file[0], Last(), hasher, maxObject, maxEntry, d);
    }

    /** Everything a visit of a DATA object's chain relies on. */
    lemma ChainDue(d: uint64, since: nat)
      requires Ready() && d in file[0].data && since < |file|
      ensures d in file[since].data && d in Last().data && 0 < file[0].data[d].nEntries <= file[since].data[d].nEntries
      ensures var e, head, n := Last().data[d].entryOffset, Last().data[d].entryArrayOffset, file[since].data[d].nEntries;
              && Walking(since, head, n - 1, file[0].data[d].nEntries - 1, e)
              && e == file[0].data[d].entryOffset != 0 && e <= maxEntry && e in file[0].entries
              && PostingList(file[0], d) == [e] + ChainItems(file[0].arrays, head, file[0].data[d].nEntries - 1)
    {
      ChainFilledSince(d, since);
      ChainCaptured(d);
      SplitChain(d, file[since].data[d].nEntries);
    }

    lemma SplitChain(d: uint64, n: nat)
      requires |file| > 0 && d in file[0].data && d in Last().data
      requires 0 < file[0].data[d].nEntries <= n <= Last().data[d].nEntries
      requires Published(Last()) && Partitioned(PostingList(Last(), d), file[0].data[d].nEntries, maxEntry, file[0].entries.Keys)
      ensures Split(Rest(Last().data[d].entryArrayOffset, n - 1), file[0].data[d].nEntries - 1, Last().data[d].entryOffset)
    {
      CountedPrefix(Last(), d, n);
      PartSplits(PostingList(Last(), d), file[0].data[d].nEntries, n);
    }

    lemma PartSplits(p: seq<uint64>, kept: nat, count: nat)
      requires |file| > 0 && Partitioned(p, kept, maxEntry, file[0].entries.Keys) && kept <= count <= |p|
      ensures Split(p[1..count], kept - 1, p[0])
    {
      assert [p[0]] + p[1..count] == p[..count];
    }

    /** A DATA header whose scalars may each come from a different moment. */
    ghost predicate HeaderRead(d: uint64, h: DataHeader, since: nat)
      reads this`readCount
    {
      && Ready() && d in file[0].data && since < |file| && since <= now(readCount)
      && d in file[since].data && h.nEntries == file[since].data[d].nEntries
      && h.entryOffset == file[0].data[d].entryOffset
      && d in Last().data && (h.entryArrayOffset != 0 ==> h.entryArrayOffset == Last().data[d].entryArrayOffset)
      && Fills(file[0].data[d].nextHash, h.nextHash)
      && (file[0].data[d].nextHash == 0 && h.nextHash != 0 ==> h.nextHash > maxObject)
      && h.payload == file[0].data[d].payload && h.hash == file[0].data[d].hash && h.nextField == file[0].data[d].nextField
    }

    lemma DataAt(d: uint64, t: nat)
      requires Ready() && d in file[0].data && t < |file|
      ensures d in file[t].data && d in Last().data
      ensures DataGrows(file[0].data[d], file[t].data[d]) && DataGrows(file[t].data[d], Last().data[d])
      ensures file[0].data[d].nextHash == 0 && file[t].data[d].nextHash != 0 ==> file[t].data[d].nextHash > maxObject
      ensures file[t].data[d].entryOffset == file[0].data[d].entryOffset && file[t].data[d].nextField == file[0].data[d].nextField
    {
      assert Between(file, 0, t) && Moment(file, t, maxObject, maxEntry) && Moment(file, 0, maxObject, maxEntry);
      GrowsToLast(t);
      CountedFilled(file[0], d);
    }

    method ReadDataHeader(d: uint64) returns (r: Result<DataHeader>, ghost since: nat)
      requires Clock()
      modifies this`readCount
      ensures readCount >= old(readCount)
      ensures Ready() && d in file[0].data ==> r.Ok? && HeaderRead(d, r.value, since)
    {
      ghost var good := Ready() && d in file[0].data;
      since := 0;
      if d > maxObject { return Err(CorruptObject), since; }
      var t := Cached();
      var u := Cached();
      var v := Cached();
      var w := Cached();
      if good {
        DataAt(d, t);
        DataAt(d, u);
        DataAt(d, v);
        DataAt(d, w);
      }
      if d !in file[t].data || d !in file[u].data || d !in file[v].data || d !in file[w].data { return Err(CorruptObject), since; }
      since := u;
      return Ok(DataHeader(file[t].data[d].payload, file[t].data[d].hash, file[t].data[d].nextHash, file[t].data[d].nextField,
                           file[v].data[d].entryOffset, file[w].data[d].entryArrayOffset, file[u].data[d].nEntries)), since;
    }

    /** The head of a DATA object's chain; an empty one is read again past the cache. */
    method PostingHead(d: uint64, h: DataHeader, ghost since: nat, ghost good: bool) returns (r: Result<uint64>)
      requires Clock()
      requires good ==> HeaderRead(d, h, since) && h.nEntries > 1
      modifies this`readCount
      ensures readCount >= old(readCount)
      ensures good ==> d in Last().data && r == Ok(Last().data[d].entryArrayOffset)
    {
      if h.entryArrayOffset != 0 { return Ok(h.entryArrayOffset); }
      var t := Uncached();
      if good { ChainSince(d, since, t); }
      if d !in file[t].data || file[t].data[d].entryArrayOffset == 0 { return Err(CorruptObject); }
      return Ok(file[t].data[d].entryArrayOffset);
    }

    /** Visits the postings after the first. */
    method VisitChain(d: uint64, h: DataHeader, ghost since: nat, ghost good: bool) returns (ok: bool)
      requires Clock() && h.nEntries > 0
      requires good ==> HeaderRead(d, h, since) && h.nEntries > 1
      modifies this`readCount, this`visited
      ensures readCount >= old(readCount)
      ensures good ==>
                && ok && d in file[0].data && d in Last().data && file[0].data[d].nEntries > 0
                && visited == old(visited) + ChainItems(file[0].arrays, Last().data[d].entryArrayOffset, file[0].data[d].nEntries - 1)
    {
      var r := PostingHead(d, h, since, good);
      if r.Err? { return false; }
      ghost var kept: nat := 0;
      if good {
        ChainDue(d, since);
        Later(old(readCount), readCount, true, since);
        kept := file[0].data[d].nEntries - 1;
      }
      ok := VisitArrays(r.value, h.nEntries - 1, h.entryOffset, true, since, kept, good);
    }

    /** Visits the postings that a DATA object had at capture. */
    method VisitPostings(d: uint64, h: DataHeader, ghost since: nat, ghost good: bool) returns (ok: bool)
      requires Clock()
      requires good ==> HeaderRead(d, h, since)
      modifies this`readCount, this`visited
      ensures readCount >= old(readCount)
      ensures good ==> d in file[0].data && ok && visited == old(visited) + PostingList(file[0], d)
    {
      if good { ChainCaptured(d); ChainFilledSince(d, since); }
      if h.nEntries == 0 { return false; }
      if h.entryOffset > maxEntry { return true; }
      ok := VisitEntry(h.entryOffset);
      if !ok { return; }
      if h.nEntries == 1 { return true; }
      if good { Later(old(readCount), readCount, true, since); }
      ok := VisitChain(d, h, since, good);
    }

    // ----- lookup by payload

    /** A walk of a bucket, in terms of the captured chain: `off` is on it, or it has run out. */
    ghost predicate Searching(payload: bytes, head: uint64, off: uint64)
      requires |file| > 0
    {
      if off != 0 && off <= maxObject then off in file[0].data && Ahead(file[0], payload, head, off)
      else Ahead(file[0], payload, head, 0)
    }

    lemma SearchOn(payload: bytes, head: uint64, off: uint64, next: uint64)
      requires Ready() && Searching(payload, head, off) && off != 0 && off <= maxObject
      requires off in file[0].data && file[0].data[off].payload != payload && Fills(file[0].data[off].nextHash, next)
      requires file[0].data[off].nextHash == 0 && next != 0 ==> next > maxObject
      ensures next == 0 || next > off
      ensures Searching(payload, head, next)
    {
      AheadStep(file[0], payload, head, off);
    }

    /** Reads a bucket's head. */
    method ReadBucket(b: nat) returns (r: Result<uint64>)
      requires Clock()
      modifies this`readCount
      ensures readCount >= old(readCount)
      ensures Ready() && b < |file[0].dataTable| ==>
                && r.Ok? && Fills(file[0].dataTable[b].head, r.value)
                && (file[0].dataTable[b].head == 0 && r.value != 0 ==> r.value > maxObject)
    {
      var t := Cached();
      if Ready() { assert Between(file, 0, t) && Moment(file, t, maxObject, maxEntry); }
      if b >= |file[t].dataTable| { return Err(CorruptObject); }
      return Ok(file[t].dataTable[b].head);
    }

    /** Walks a bucket to the captured DATA object with a payload, if there is one. */
    method WalkBucket(hash: uint64, payload: bytes, start: uint64, ghost head: uint64, ghost good: bool)
      returns (r: Result<(uint64, DataHeader)>, ghost since: nat)
      requires Clock()
      requires good ==> Ready() && hash == hasher(payload) && Searching(payload, head, start)
      modifies this`readCount
      ensures readCount >= old(readCount)
      ensures good ==> r.Ok?
      ensures good && r.value.0 != 0 ==> Holds(file[0], payload, r.value.0) && HeaderRead(r.value.0, r.value.1, since)
      ensures good && r.value.0 == 0 ==> Ahead(file[0], payload, head, 0)
    {
      since := 0;
      var off: uint64 := start;
      while off != 0
        invariant readCount >= old(readCount)
        invariant good ==> Searching(payload, head, off)
        decreases if off == 0 then 0 else MAX_U64 - off + 1
      {
        if off > maxObject { break; }
        var h: Result<DataHeader>;
        h, since := ReadDataHeader(off);
        if h.Err? { return Err(CorruptObject), since; }
        if h.value.hash == hash && h.value.payload == payload { return Ok((off, h.value)), since; }
        if good { SearchOn(payload, head, off, h.value.nextHash); }
        if h.value.nextHash != 0 && h.value.nextHash <= off { return Err(CorruptObject), since; }
        off := h.value.nextHash;
      }
      return Ok((0, DataHeader([], 0, 0, 0, 0, 0, 0))), since;
    }

    lemma SearchStarts(payload: bytes, b: nat, start: uint64)
      requires Ready() && b < |file[0].dataTable| && Fills(file[0].dataTable[b].head, start)
      requires file[0].dataTable[b].head == 0 && start != 0 ==> start > maxObject
      ensures Searching(payload, file[0].dataTable[b].head, start)
    {
      assert BucketOk(DataLinks(file[0]), file[0].dataTable, b);
    }

    lemma NothingAhead(payload: bytes, b: nat)
      requires Ready() && b < |file[0].dataTable| && b == hasher(payload) % |file[0].dataTable|
      requires Ahead(file[0], payload, file[0].dataTable[b].head, 0)
      ensures forall d :: !Holds(file[0], payload, d)
    {
      assert forall d :: d in file[0].data ==> d in DataLinks(file[0]);
    }

    /** Finds the DATA object that held a payload at capture. */
    method FindData(payload: bytes) returns (r: Result<(uint64, DataHeader)>, ghost since: nat)
      requires Clock()
      modifies this`readCount
      ensures readCount >= old(readCount)
      ensures Ready() ==> r.Ok?
      ensures Ready() && r.value.0 != 0 ==> Holds(file[0], payload, r.value.0) && HeaderRead(r.value.0, r.value.1, since)
      ensures Ready() && r.value.0 == 0 ==> forall d :: !Holds(file[0], payload, d)
    {
      since := 0;
      if |file[0].dataTable| == 0 { return Err(CorruptObject), since; }
      var hash := hasher(payload);
      var b := hash % |file[0].dataTable|;
      var start := ReadBucket(b);
      if start.Err? { return Err(CorruptObject), since; }
      if Ready() { SearchStarts(payload, b, start.value); }
      r, since := WalkBucket(hash, payload, start.value, file[0].dataTable[b].head, Ready());
      if Ready() && r.value.0 == 0 { NothingAhead(payload, b); }
    }

    // ----- visits

    /** Whatever was appended since, and however stale the cached reads are, a visit hands out the
        postings that the value had at capture, in order and once each. */
    method VisitMatch(name: bytes, value: bytes) returns (outcome: Outcome)
      requires Clock()
      modifies this
      ensures busy == old(busy) && closed == old(closed)
      ensures outcome == Closed <==> closed
      ensures outcome == Busy <==> !closed && busy
      ensures outcome == InvalidName <==> !closed && !busy && (name == [] || EQUALS in name)
      ensures Ready() && !closed && !busy && name != [] && EQUALS !in name ==>
                && outcome == Done
                && (forall d :: Holds(file[0], name + [EQUALS] + value, d) ==> visited == old(visited) + PostingList(file[0], d))
                && ((forall d :: !Holds(file[0], name + [EQUALS] + value, d)) ==> visited == old(visited))
    {
      if closed { return Closed; }
      if busy { return Busy; }
      if name == [] || EQUALS in name { return InvalidName; }
      busy := true;
      outcome := VisitPayload(name + [EQUALS] + value);
      busy := false;
    }

    /** The global entry array at capture lists the committed population. */
    ghost predicate GlobalReady()
      requires |file| > 0
    {
      var h := file[0].header;
      var list := ChainItems(file[0].arrays, h.entryArrayOffset, h.nEntries);
      Filled(file[0].arrays, h.entryArrayOffset, h.nEntries) && Ascending(list) && Within(list, maxEntry, file[0].entries.Keys)
    }

    lemma GlobalDue()
      requires Ready() && GlobalReady()
      ensures Walking(0, file[0].header.entryArrayOffset, file[0].header.nEntries, file[0].header.nEntries, 0)
    {
      var off, n := file[0].header.entryArrayOffset, file[0].header.nEntries;
      forall t | 0 <= t < |file| ensures FilledAt(t, off, n) {
        assert Between(file, 0, t);
        ChainKept(file[0].arrays, file[t].arrays, off, n);
      }
      GrowsToLast(0);
      ChainKept(file[0].arrays, Last().arrays, off, n);
      var list := ChainItems(file[0].arrays, off, n);
      forall x | x in list ensures x > 0 {}
    }

    /** Streams the captured population in order, however the file has grown. */
    method VisitEntries() returns (outcome: Outcome)
      requires Clock()
      modifies this
      ensures busy == old(busy) && closed == old(closed)
      ensures outcome == Closed <==> closed
      ensures outcome == Busy <==> !closed && busy
      ensures Ready() && GlobalReady() && !closed && !busy ==>
                outcome == Done && visited == old(visited) + ChainItems(file[0].arrays, file[0].header.entryArrayOffset, file[0].header.nEntries)
    {
      if closed { return Closed; }
      if busy { return Busy; }
      busy := true;
      ghost var good := Ready() && GlobalReady();
      if good { GlobalDue(); }
      var h := file[0].header;
      var ok := VisitArrays(h.entryArrayOffset, h.nEntries, 0, false, 0, h.nEntries, good);
      busy := false;
      return if ok then Done else Corrupt;
    }

    // ----- visits by field

    /** A captured chain of a field's values. */
    ghost predicate FieldReady(field: bytes, head: uint64)
      requires |file| > 0
    {
      ValuesOk(file[0].data, head) && forall d :: d in Values(file[0].data, head) ==> d in file[0].data && IsValueOf(file[0].data[d].payload, field)
    }

    lemma FieldStep(field: bytes, off: uint64, accept: bytes -> bool)
      requires Ready() && FieldReady(field, off) && off != 0
      ensures off in file[0].data && IsValueOf(file[0].data[off].payload, field)
      ensures var next := file[0].data[off].nextField;
              && next < off && FieldReady(field, next)
              && Handed(file[0], Values(file[0].data, off), field, accept) ==
                   HandedOf(file[0], off, field, accept)
                   + Handed(file[0], Values(file[0].data, next), field, accept)
    {
      var next := file[0].data[off].nextField;
      var ds := Values(file[0].data, off);
      assert ds == [off] + Values(file[0].data, next);
      assert ds[1..] == Values(file[0].data, next);
    }

    /** Visits one value of a field, if it is accepted. */
    method VisitValue(off: uint64, field: bytes, accept: bytes -> bool, ghost good: bool) returns (r: Result<uint64>)
      requires Clock()
      requires good ==> Ready() && off in file[0].data && IsValueOf(file[0].data[off].payload, field) && file[0].data[off].nextField < off
      modifies this`readCount, this`visited
      ensures readCount >= old(readCount)
      ensures r.Ok? ==> r.value < off || r.value == 0
      ensures good ==> off in file[0].data && r == Ok(file[0].data[off].nextField)
      ensures good ==> visited == old(visited) + HandedOf(file[0], off, field, accept)
    {
      ghost var since: nat;
      var h: Result<DataHeader>;
      h, since := ReadDataHeader(off);
      if h.Err? { return Err(CorruptObject); }
      if h.value.nextField != 0 && h.value.nextField >= off { return Err(CorruptObject); }
      if !IsValueOf(h.value.payload, field) { return Err(CorruptObject); }
      if good { WantedValue(h.value.payload, field, accept); }
      if accept(ValueOf(h.value.payload, field)) {
        var ok := VisitPostings(off, h.value, since, good);
        if !ok { return Err(CorruptObject); }
      }
      return Ok(h.value.nextField);
    }

    /** What a walk of a field's values from `off` on hands out. */
    ghost function StillHanded(off: uint64, field: bytes, accept: bytes -> bool): seq<uint64>
      requires |file| > 0
    {
      Handed(file[0], Values(file[0].data, off), field, accept)
    }

    /** Visits one value of a field and finds the next. */
    method VisitNext(off: uint64, field: bytes, accept: bytes -> bool, ghost good: bool) returns (r: Result<uint64>)
      requires Clock() && off != 0
      requires good ==> Ready() && FieldReady(field, off)
      modifies this`readCount, this`visited
      ensures readCount >= old(readCount)
      ensures r.Ok? ==> r.value < off
      ensures good ==> r.Ok? && FieldReady(field, r.value)
      ensures good ==> visited + StillHanded(r.value, field, accept) == old(visited) + StillHanded(off, field, accept)
    {
      ghost var before := visited;
      if good { FieldStep(field, off, accept); }
      r := VisitValue(off, field, accept, good);
      if good { PassedOver(before, visited, off, field, accept); }
    }

    lemma PassedOver(before: seq<uint64>, after: seq<uint64>, off: uint64, field: bytes, accept: bytes -> bool)
      requires Ready() && FieldReady(field, off) && off != 0
      requires off in file[0].data && IsValueOf(file[0].data[off].payload, field)
      requires after == before + HandedOf(file[0], off, field, accept)
      ensures after + StillHanded(file[0].data[off].nextField, field, accept) == before + StillHanded(off, field, accept)
    {
      FieldStep(field, off, accept);
      var part := HandedOf(file[0], off, field, accept);
      Regroup(before, part, StillHanded(file[0].data[off].nextField, field, accept));
    }

    /** Walks the captured values of a field. New values are linked in before the captured head, so
        the walk never meets them. */
    method VisitValues(head: uint64, field: bytes, accept: bytes -> bool, ghost good: bool) returns (ok: bool)
      requires Clock()
      requires good ==> Ready() && FieldReady(field, head)
      modifies this`readCount, this`visited
      ensures readCount >= old(readCount)
      ensures good ==> ok && visited == old(visited) + StillHanded(head, field, accept)
    {
      var off := head;
      while off != 0
        invariant readCount >= old(readCount)
        invariant good ==> FieldReady(field, off) && visited + StillHanded(off, field, accept) == old(visited) + StillHanded(head, field, accept)
        decreases off
      {
        var next := VisitNext(off, field, accept, good);
        if next.Err? { return false; }
        off := next.value;
      }
      return true;
    }

    /** Hands out the captured postings of every accepted value of a declared field. */
    method VisitField(field: bytes, accept: bytes -> bool) returns (outcome: Outcome)
      requires Clock()
      modifies this
      ensures busy == old(busy) && closed == old(closed) && fields == old(fields)
      ensures outcome == Closed <==> closed
      ensures outcome == Busy <==> !closed && busy
      ensures outcome == Undeclared <==> !closed && !busy && field !in fields
      ensures Ready() && !closed && !busy && field in fields && FieldReady(field, fields[field]) ==>
                outcome == Done && visited == old(visited) + Handed(file[0], Values(file[0].data, fields[field]), field, accept)
    {
      if closed { return Closed; }
      if busy { return Busy; }
      if field !in fields { return Undeclared; }
      busy := true;
      var ok := VisitValues(fields[field], field, accept, Ready() && FieldReady(field, fields[field]));
      busy := false;
      return if ok then Done else Corrupt;
    }

    method VisitPayload(payload: bytes) returns (outcome: Outcome)
      requires Clock()
      modifies this`readCount, this`visited
      ensures outcome == Done || outcome == Corrupt
      ensures Ready() ==>
                && outcome == Done
                && (forall d :: Holds(file[0], payload, d) ==> visited == old(visited) + PostingList(file[0], d))
                && ((forall d :: !Holds(file[0], payload, d)) ==> visited == old(visited))
    {
      ghost var since: nat;
      var r: Result<(uint64, DataHeader)>;
      r, since := FindData(payload);
      if r.Err? { return Corrupt; }
      if r.value.0 == 0 { return Done; }
      var ok := VisitPostings(r.value.0, r.value.1, since, Ready());
      if Ready() { HolderUnique(payload, r.value.0); }
      return if ok then Done else Corrupt;
    }

    lemma HolderUnique(payload: bytes, d: uint64)
      requires Ready() && Holds(file[0], payload, d)
      ensures forall e :: Holds(file[0], payload, e) ==> e == d
    {
    }
  }

  lemma Regroup(a: seq<uint64>, b: seq<uint64>, c: seq<uint64>)
    ensures (a + b) + c == a + (b + c)
  {
  }

  /** `seen` and the first `kept` of `rest` make up `goal`. */
  ghost predicate Reaches(seen: seq<uint64>, rest: seq<uint64>, kept: nat, goal: seq<uint64>) {
    kept <= |rest| && seen + rest[..kept] == goal
  }

  lemma ReachesOn(seen: seq<uint64>, rest: seq<uint64>, kept: nat, goal: seq<uint64>, n: nat, after: seq<uint64>)
    requires Reaches(seen, rest, kept, goal) && n <= kept && after == seen + rest[..n]
    ensures Reaches(after, rest[n..], kept - n, goal)
  {
    assert rest[..n] + rest[n..][..kept - n] == rest[..kept];
  }
}
