/** The object graph of one journal file: DATA, FIELD, ENTRY and ENTRY_ARRAY objects
    addressed by file offset, together with the header and the two hash tables.
    Offset 0 never addresses an object; it ends every chain. */
module JournalGraph {

  const MAX_U64: int := 0xFFFF_FFFF_FFFF_FFFF

  type uint64 = x: int | 0 <= x <= 0xFFFF_FFFF_FFFF_FFFF
  type uint8 = x: int | 0 <= x <= 0xFF
  type bytes = seq<uint8>

  const EQUALS: uint8 := 61

  datatype ReadError = CorruptObject | TailFailure

  datatype Result<+T> = Ok(value: T) | Err(error: ReadError)

  datatype Option<+T> = None | Some(value: T)

  datatype Direction = Forward | Backward

  /** `a` lies at `b` or further along `dir`. */
  predicate Beyond(dir: Direction, a: int, b: int) {
    if dir.Forward? then a >= b else a <= b
  }

  datatype EntryArray = EntryArray(next: uint64, items: seq<uint64>)

  datatype DataObject = DataObject(
    payload: bytes, hash: uint64, nextHash: uint64, nextField: uint64,
    entryOffset: uint64, entryArrayOffset: uint64, nEntries: uint64,
    tailArrayOffset: uint64, tailArrayUsed: uint64)

  datatype FieldObject = FieldObject(name: bytes, hash: uint64, nextHash: uint64, headData: uint64)

  datatype EntryObject = EntryObject(
    seqnum: uint64, realtime: uint64, monotonic: uint64, bootId: uint64, items: seq<uint64>)

  datatype HashItem = HashItem(head: uint64, tail: uint64)

  datatype Header = Header(
    compact: bool, hasTailArrayHint: bool,
    nEntries: uint64, entryArrayOffset: uint64,
    tailArrayOffset: uint64, tailArrayUsed: uint64)

  datatype Journal = Journal(
    header: Header,
    data: map<uint64, DataObject>,
    fields: map<uint64, FieldObject>,
    entries: map<uint64, EntryObject>,
    arrays: Arrays,
    dataTable: seq<HashItem>,
    fieldTable: seq<HashItem>)

  /** ENTRY_ARRAY objects by offset. */
  type Arrays = m: map<uint64, EntryArray> | 0 !in m witness map[]

  ghost predicate Ascending(s: seq<uint64>) {
    forall i, j :: 0 <= i < j < |s| ==> s[i] < s[j]
  }

  ghost function Elements(s: seq<uint64>): set<uint64> {
    set x | x in s
  }

  /** The first `count` slots reachable from the array at `head`; shorter when the
      chain breaks off before that many slots. */
  function ChainItems(arrays: Arrays, head: uint64, count: nat): (items: seq<uint64>)
    ensures |items| <= count
    decreases count
  {
    if count == 0 || head !in arrays || |arrays[head].items| == 0 then []
    else if count <= |arrays[head].items| then arrays[head].items[..count]
    else arrays[head].items + ChainItems(arrays, arrays[head].next, count - |arrays[head].items|)
  }

  /** The posting list of a DATA object: one inline entry, then the chain. */
  function Postings(arrays: Arrays, inline: uint64, head: uint64, count: nat): (p: seq<uint64>)
    ensures |p| <= count
  {
    if count == 0 then [] else [inline] + ChainItems(arrays, head, count - 1)
  }

  /** The posting list of the DATA object at `d`. */
  ghost function PostingList(j: Journal, d: uint64): seq<uint64>
    requires d in j.data
  {
    Postings(j.arrays, j.data[d].entryOffset, j.data[d].entryArrayOffset, j.data[d].nEntries)
  }

  /** A posting list a healthy file stores: complete, free of zero slots and ascending. */
  ghost predicate HealthyPostings(p: seq<uint64>, count: nat) {
    |p| == count && 0 !in p && Ascending(p)
  }

  lemma AscendingTail(s: seq<uint64>)
    requires Ascending(s) && s != []
    ensures Ascending(s[1..])
    ensures forall x :: x in s[1..] <==> x in s && x != s[0]
    ensures forall x :: x in s ==> s[0] <= x
  {
  }

  lemma TakeOneMore(s: seq<uint64>, m: nat)
    requires m < |s|
    ensures s[..m+1] == s[..m] + [s[m]]
  {
  }

  lemma AscendingAppend(s: seq<uint64>, x: uint64)
    requires Ascending(s) && forall e :: e in s ==> e < x
    ensures Ascending(s + [x])
  {
    forall i, j | 0 <= i < j < |s + [x]| ensures (s + [x])[i] < (s + [x])[j] {
      if j == |s| { assert s[i] in s; }
    }
  }

  lemma AscendingCons(x: uint64, s: seq<uint64>)
    requires Ascending(s) && forall e :: e in s ==> x < e
    ensures Ascending([x] + s)
  {
    forall i, j | 0 <= i < j < |[x] + s| ensures ([x] + s)[i] < ([x] + s)[j] {
      if i == 0 { assert s[j-1] in s; }
    }
  }

  lemma AscendingInit(s: seq<uint64>, n: nat)
    requires Ascending(s) && |s| == n + 1
    ensures Ascending(s[..n]) && forall e :: e in s[..n] ==> e < s[n]
  {
  }

  lemma HasElement(s: seq<uint64>)
    requires s != []
    ensures exists x :: x in s
  {
    assert s[0] in s;
  }

  /** Two strictly ascending sequences with the same elements are equal. */
  lemma {:induction false} AscendingUnique(s: seq<uint64>, t: seq<uint64>)
    requires Ascending(s) && Ascending(t)
    requires forall x :: x in s <==> x in t
    ensures s == t
  {
    if s == [] {
      if t != [] { HasElement(t); assert false; }
    } else {
      if t == [] { HasElement(s); assert false; }
      assert s[0] in t;
      AscendingTail(s);
      AscendingTail(t);
      assert t[0] in s;
      assert s[0] == t[0];
      AscendingUnique(s[1..], t[1..]);
      assert s == [s[0]] + s[1..];
      assert t == [t[0]] + t[1..];
    }
  }

  lemma {:induction false} SubsetSize(a: set<uint64>, b: set<uint64>)
    requires a <= b
    ensures |a| <= |b|
    decreases |a|
  {
    if a != {} {
      var x :| x in a;
      SubsetSize(a - {x}, b - {x});
    }
  }
}
