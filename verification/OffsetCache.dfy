/** The explorer's cache of classified DATA offsets: open addressing with linear probing
    (go/journal/explorer.go:1480-1587). */
module OffsetCache {
  import opened JournalGraph
  import opened NumberTheory
  import opened Bits

  datatype Class = Irrelevant | FtsMatch | FtsNegative | Value(index: nat)

  /** The integer a class is stored as. */
  function Raw(c: Class): int {
    match c
    case Irrelevant => 1
    case FtsMatch => 2
    case FtsNegative => 3
    case Value(i) => 4 + i
  }

  function FromRaw(raw: int): Class
    requires raw > 0
  {
    if raw == 1 then Irrelevant
    else if raw == 2 then FtsMatch
    else if raw == 3 then FtsNegative
    else Value(raw - 4)
  }

  lemma RawRoundTrip(c: Class)
    ensures Raw(c) > 0 && FromRaw(Raw(c)) == c
  {
  }

  datatype Slot = Slot(offset: uint64, raw: int)

  const EMPTY: Slot := Slot(0, 0)

  type Hash = uint64 -> nat

  /** The position of the `i`-th probe for an offset. */
  function Probe(hash: Hash, n: nat, offset: uint64, i: nat): nat
    requires n > 0
    ensures Probe(hash, n, offset, i) < n
  {
    (hash(offset) + i) % n
  }

  /** The source masks instead of dividing, which is the same for a power of two. */
  lemma MaskedFirst(hash: Hash, n: nat, offset: uint64)
    requires n > 0 && IsPow2(n)
    ensures BitAnd(hash(offset), n - 1) == Probe(hash, n, offset, 0)
  {
    var k: nat :| n == Pow2(k);
    MaskIsMod(hash(offset), k);
  }

  lemma MaskedNext(hash: Hash, n: nat, offset: uint64, i: nat)
    requires n > 0 && IsPow2(n)
    ensures BitAnd(Probe(hash, n, offset, i) + 1, n - 1) == Probe(hash, n, offset, i + 1)
  {
    var k: nat :| n == Pow2(k);
    var x := hash(offset) + i;
    MaskIsMod(x % n + 1, k);
    ModMod(x, n);
    ModAdd(x, 1, x % n, 1, n);
  }

  /** Before probe `i` every slot is taken by some other offset. */
  ghost predicate Taken(slots: seq<Slot>, hash: Hash, offset: uint64, i: nat)
    requires |slots| > 0
  {
    forall x: nat {:trigger Probe(hash, |slots|, offset, x)} :: x < i ==>
      slots[Probe(hash, |slots|, offset, x)].offset != 0 && slots[Probe(hash, |slots|, offset, x)].offset != offset
  }

  /** Probe `i` finds the offset. */
  ghost predicate FoundAt(slots: seq<Slot>, hash: Hash, offset: uint64, i: nat)
    requires |slots| > 0
  {
    Taken(slots, hash, offset, i) && slots[Probe(hash, |slots|, offset, i)].offset == offset
  }

  ghost predicate Findable(slots: seq<Slot>, hash: Hash, offset: uint64)
    requires |slots| > 0
  {
    exists i: nat :: FoundAt(slots, hash, offset, i)
  }

  /** The table stores the map: every offset is found by probing, once, with its class, and
      nothing else is stored. */
  ghost predicate Stores(slots: seq<Slot>, hash: Hash, m: map<uint64, int>)
    requires |slots| > 0
  {
    && 0 !in m
    && (forall k :: k in m ==> Findable(slots, hash, k))
    && (forall p :: 0 <= p < |slots| && slots[p].offset != 0 ==> slots[p].offset in m && slots[p].raw == m[slots[p].offset])
    && (forall p, q :: 0 <= p < q < |slots| && slots[p].offset != 0 ==> slots[p].offset != slots[q].offset)
  }

  // ----- there is always room

  lemma {:induction false} OffsetsDistinct(slots: seq<Slot>, n: nat)
    requires n <= |slots| && (forall p :: 0 <= p < n ==> slots[p].offset != 0)
    requires forall p, q :: 0 <= p < q < |slots| && slots[p].offset != 0 ==> slots[p].offset != slots[q].offset
    ensures |set p | 0 <= p < n :: slots[p].offset| == n
    decreases n
  {
    var s := set p | 0 <= p < n :: slots[p].offset;
    if n == 0 {
      assert s == {};
    } else {
      OffsetsDistinct(slots, n - 1);
      var t := set p | 0 <= p < n - 1 :: slots[p].offset;
      assert s == t + {slots[n-1].offset};
      assert slots[n-1].offset !in t;
    }
  }

  /** With fewer offsets than slots, some slot is empty. */
  lemma EmptySlot(slots: seq<Slot>, hash: Hash, m: map<uint64, int>)
    requires |slots| > 0 && Stores(slots, hash, m) && |m| < |slots|
    ensures exists p :: 0 <= p < |slots| && slots[p].offset == 0
  {
    if forall p :: 0 <= p < |slots| ==> slots[p].offset != 0 {
      var s := set p | 0 <= p < |slots| :: slots[p].offset;
      OffsetsDistinct(slots, |slots|);
      SubsetSize(s, m.Keys);
    }
  }

  /** Every position is probed within `|slots|` probes. */
  lemma Probed(hash: Hash, n: nat, offset: uint64, p: nat) returns (i: nat)
    requires p < n
    ensures i < n && Probe(hash, n, offset, i) == p
  {
    var h := hash(offset) % n;
    i := if p >= h then p - h else p + n - h;
    ModMod(hash(offset), n);
    ModAdd(hash(offset), i, h, i, n);
    ModUnique(h + i, if p >= h then 0 else 1, n, p);
  }

  /** Probing never runs out of slots before it meets an empty one or the offset. */
  lemma ProbeEnds(slots: seq<Slot>, hash: Hash, m: map<uint64, int>, offset: uint64, i: nat)
    requires |slots| > 0 && Stores(slots, hash, m) && |m| < |slots| && Taken(slots, hash, offset, i)
    ensures i < |slots|
  {
    if i >= |slots| {
      EmptySlot(slots, hash, m);
      var p :| 0 <= p < |slots| && slots[p].offset == 0;
      var x := Probed(hash, |slots|, offset, p);
    }
  }

  lemma TakenNext(slots: seq<Slot>, hash: Hash, offset: uint64, i: nat)
    requires |slots| > 0 && Taken(slots, hash, offset, i)
    requires slots[Probe(hash, |slots|, offset, i)].offset != 0 && slots[Probe(hash, |slots|, offset, i)].offset != offset
    ensures Taken(slots, hash, offset, i + 1)
  {
  }

  /** An empty slot on the way means that the offset is not stored. */
  lemma NotStored(slots: seq<Slot>, hash: Hash, m: map<uint64, int>, offset: uint64, i: nat)
    requires |slots| > 0 && Stores(slots, hash, m) && Taken(slots, hash, offset, i)
    requires slots[Probe(hash, |slots|, offset, i)].offset == 0
    ensures offset !in m
  {
    if offset != 0 { NotFindable(slots, hash, offset, i); }
  }

  lemma NotFindable(slots: seq<Slot>, hash: Hash, offset: uint64, i: nat)
    requires |slots| > 0 && Taken(slots, hash, offset, i) && offset != 0
    requires slots[Probe(hash, |slots|, offset, i)].offset == 0
    ensures !Findable(slots, hash, offset)
  {
    forall k: nat ensures !FoundAt(slots, hash, offset, k) {
      var at := slots[Probe(hash, |slots|, offset, k)];
    }
  }

  /** Filling the empty slot that probing met stores the offset and disturbs no other. */
  lemma StoredNew(slots: seq<Slot>, hash: Hash, m: map<uint64, int>, offset: uint64, raw: int, i: nat)
    requires |slots| > 0 && Stores(slots, hash, m) && Taken(slots, hash, offset, i) && offset != 0 && offset !in m
    requires slots[Probe(hash, |slots|, offset, i)].offset == 0
    ensures Stores(slots[Probe(hash, |slots|, offset, i) := Slot(offset, raw)], hash, m[offset := raw])
  {
    var p := Probe(hash, |slots|, offset, i);
    var after := slots[p := Slot(offset, raw)];
    forall k | k in m[offset := raw] ensures Findable(after, hash, k) {
      if k == offset {
        StillTaken(slots, after, hash, offset, p, i, offset);
        assert FoundAt(after, hash, offset, i);
      } else {
        var x: nat :| FoundAt(slots, hash, k, x);
        StillTaken(slots, after, hash, k, p, x, offset);
        assert FoundAt(after, hash, k, x);
      }
    }
  }

  lemma StillTaken(slots: seq<Slot>, after: seq<Slot>, hash: Hash, k: uint64, p: nat, i: nat, offset: uint64)
    requires |slots| == |after| > 0 && p < |slots| && slots[p].offset == 0 && Taken(slots, hash, k, i)
    requires after == slots[p := after[p]]
    ensures Taken(after, hash, k, i)
  {
  }

  /** Changing the class of a stored offset changes nothing else. */
  lemma StoredAgain(slots: seq<Slot>, hash: Hash, m: map<uint64, int>, offset: uint64, raw: int, p: nat)
    requires |slots| > 0 && Stores(slots, hash, m) && p < |slots| && slots[p].offset == offset != 0
    ensures offset in m && Stores(slots[p := Slot(offset, raw)], hash, m[offset := raw])
  {
    var after := slots[p := Slot(offset, raw)];
    assert forall q :: 0 <= q < |slots| ==> after[q].offset == slots[q].offset;
    forall k | k in m[offset := raw] ensures Findable(after, hash, k) {
      var x: nat :| FoundAt(slots, hash, k, x);
      SameOffsets(slots, after, hash, k, x);
    }
  }

  lemma SameOffsets(slots: seq<Slot>, after: seq<Slot>, hash: Hash, k: uint64, i: nat)
    requires |slots| == |after| > 0 && (forall q :: 0 <= q < |slots| ==> after[q].offset == slots[q].offset) && FoundAt(slots, hash, k, i)
    ensures FoundAt(after, hash, k, i)
  {
  }

  // ----- the cache

  class OffsetClassCache {
    const hash: Hash
    var slots: array<Slot>
    var len: nat
    ghost var contents: map<uint64, int>

    /** The table stores the contents and is less than three quarters full. */
    ghost predicate Valid()
      reads this, slots
    {
      && len == |contents| && (forall k :: k in contents ==> contents[k] > 0)
      && if slots.Length == 0 then contents == map[]
         else IsPow2(slots.Length) && Stores(slots[..], hash, contents) && 4 * len < 3 * slots.Length
    }

    constructor (hash: Hash)
      ensures Valid() && fresh(slots) && contents == map[] && this.hash == hash
    {
      Pow2Of8();
      this.hash := hash;
      slots := new Slot[256](_ => EMPTY);
      len, contents := 0, map[];
    }

    /** Answers as the map does. */
    method Lookup(offset: uint64) returns (found: bool, c: Class)
      requires Valid()
      ensures found <==> offset in contents
      ensures found ==> c == FromRaw(contents[offset])
    {
      found, c := false, Irrelevant;
      if slots.Length == 0 { return; }
      var n := slots.Length;
      var mask := n - 1;
      MaskedFirst(hash, n, offset);
      var index, i: nat := BitAnd(hash(offset), mask), 0;
      while i < n
        invariant index == Probe(hash, n, offset, i) && Taken(slots[..], hash, offset, i)
        decreases n - i
      {
        var slot := slots[index];
        if slot.offset == 0 {
          NotStored(slots[..], hash, contents, offset, i);
          return;
        }
        if slot.offset == offset { return true, FromRaw(slot.raw); }
        TakenNext(slots[..], hash, offset, i);
        MaskedNext(hash, n, offset, i);
        index, i := BitAnd(index + 1, mask), i + 1;
      }
      ProbeEnds(slots[..], hash, contents, offset, i);
    }

    /** Probes for an empty slot or the offset's own; the unbounded probe always ends, because a
        slot is empty. */
    method FindSlot(offset: uint64) returns (p: nat, ghost i: nat)
      requires slots.Length > 0 && IsPow2(slots.Length) && Stores(slots[..], hash, contents) && |contents| < slots.Length
      ensures p == Probe(hash, slots.Length, offset, i) && Taken(slots[..], hash, offset, i)
      ensures slots[p].offset == 0 || slots[p].offset == offset
    {
      var n := slots.Length;
      var mask := n - 1;
      MaskedFirst(hash, n, offset);
      p, i := BitAnd(hash(offset), mask), 0;
      while true
        invariant i <= n && p == Probe(hash, n, offset, i) && Taken(slots[..], hash, offset, i)
        decreases n - i
      {
        ProbeEnds(slots[..], hash, contents, offset, i);
        if slots[p].offset == 0 || slots[p].offset == offset { return; }
        TakenNext(slots[..], hash, offset, i);
        MaskedNext(hash, n, offset, i);
        p, i := BitAnd(p + 1, mask), i + 1;
      }
    }

    /** Stores an offset in the first empty slot, or over its own. */
    method InsertRaw(offset: uint64, raw: int)
      requires slots.Length > 0 && IsPow2(slots.Length) && Stores(slots[..], hash, contents) && len == |contents| < slots.Length && offset != 0
      modifies this`len, this`contents, slots
      ensures Stores(slots[..], hash, contents) && contents == old(contents)[offset := raw] && len == |contents| <= old(len) + 1
    {
      var p, i := FindSlot(offset);
      ghost var before := slots[..];
      if slots[p].offset == 0 {
        NotStored(before, hash, contents, offset, i);
        StoredNew(before, hash, contents, offset, raw, i);
        len := len + 1;
      } else {
        StoredAgain(before, hash, contents, offset, raw, p);
        SameSize(contents, offset, raw);
      }
      slots[p] := Slot(offset, raw);
      assert slots[..] == before[p := Slot(offset, raw)];
      contents := contents[offset := raw];
    }

    /** Stores one slot of an older table. */
    method StoreSlot(slot: Slot)
      requires slots.Length > 0 && IsPow2(slots.Length) && Stores(slots[..], hash, contents) && len == |contents| < slots.Length
      modifies this`len, this`contents, slots
      ensures Stores(slots[..], hash, contents) && contents == With(old(contents), slot) && len == |contents| <= old(len) + 1
    {
      if slot.offset != 0 { InsertRaw(slot.offset, slot.raw); }
    }

    /** Stores every slot of an older table. */
    method Refill(was: seq<Slot>, ghost m: map<uint64, int>)
      requires slots.Length > |was| && IsPow2(slots.Length) && Stores(slots[..], hash, contents) && contents == map[] && len == 0
      requires if |was| == 0 then m == map[] else Stores(was, hash, m)
      modifies this`len, this`contents, slots
      ensures Stores(slots[..], hash, contents) && contents == m && len == |contents|
    {
      for p := 0 to |was|
        invariant Stores(slots[..], hash, contents) && len == |contents| <= p
        invariant Copied(was, p, m, contents)
      {
        CopiedNext(was, hash, p, m, contents);
        StoreSlot(was[p]);
      }
      AllCopied(was, hash, m, contents);
    }

    /** Doubles the table and stores every offset again. */
    method Grow()
      requires Valid()
      modifies this
      ensures fresh(slots) && slots.Length == (if 2 * old(slots.Length) > 256 then 2 * old(slots.Length) else 256)
      ensures contents == old(contents) && len == |contents| && IsPow2(slots.Length) && Stores(slots[..], hash, contents)
    {
      Pow2Of8();
      if slots.Length > 0 { Doubled(slots.Length); }
      var was := slots;
      ghost var m := contents;
      slots := new Slot[if 2 * was.Length > 256 then 2 * was.Length else 256](_ => EMPTY);
      len, contents := 0, map[];
      Refill(was[..], m);
    }

    /** Makes room for one more offset. */
    method MakeRoom()
      requires Valid()
      modifies this
      ensures slots.Length > 0 && IsPow2(slots.Length) && Stores(slots[..], hash, contents) && 4 * (len + 1) < 3 * slots.Length
      ensures contents == old(contents) && len == |contents| && (slots == old(slots) || fresh(slots))
    {
      Pow2Of8();
      if slots.Length == 0 { slots := new Slot[256](_ => EMPTY); }
      if (len + 1) * 4 >= slots.Length * 3 { Grow(); }
    }

    /** Adds or replaces one entry of the map; the offset 0 is never stored. */
    method Insert(offset: uint64, c: Class)
      requires Valid()
      modifies this, slots
      ensures Valid() && contents == if offset == 0 then old(contents) else old(contents)[offset := Raw(c)]
      ensures slots == old(slots) || fresh(slots)
    {
      if offset != 0 {
        MakeRoom();
        RawPositive(contents, offset, c, contents[offset := Raw(c)]);
        InsertRaw(offset, Raw(c));
      }
    }
  }

  lemma RawPositive(m: map<uint64, int>, offset: uint64, c: Class, more: map<uint64, int>)
    requires (forall k :: k in m ==> m[k] > 0) && more == m[offset := Raw(c)]
    ensures forall k :: k in more ==> more[k] > 0
  {
  }

  lemma SameSize(m: map<uint64, int>, k: uint64, v: int)
    requires k in m
    ensures |m[k := v]| == |m|
  {
    assert m[k := v].Keys == m.Keys;
  }

  /** The first `n` slots of a table were stored into `done`. */
  ghost predicate Copied(slots: seq<Slot>, n: nat, m: map<uint64, int>, done: map<uint64, int>)
    requires n <= |slots|
  {
    && (forall k :: k in done ==> k in m && done[k] == m[k])
    && (forall p :: 0 <= p < n && slots[p].offset != 0 ==> slots[p].offset in done)
  }

  ghost function With(m: map<uint64, int>, slot: Slot): map<uint64, int> {
    if slot.offset == 0 then m else m[slot.offset := slot.raw]
  }

  lemma CopiedNext(slots: seq<Slot>, hash: Hash, p: nat, m: map<uint64, int>, done: map<uint64, int>)
    requires p < |slots| && Copied(slots, p, m, done) && Stores(slots, hash, m)
    ensures Copied(slots, p + 1, m, With(done, slots[p]))
  {
  }

  lemma AllCopied(slots: seq<Slot>, hash: Hash, m: map<uint64, int>, done: map<uint64, int>)
    requires Copied(slots, |slots|, m, done) && if |slots| == 0 then m == map[] else Stores(slots, hash, m)
    ensures done == m
  {
    forall k | k in m ensures k in done {
      assert Findable(slots, hash, k);
    }
    assert done.Keys == m.Keys;
  }
}
