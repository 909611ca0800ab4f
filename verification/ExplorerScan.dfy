/** Facets and histograms accumulated row by row (go/journal/explorer.go:1587-1806, 2060-2240). */
module ExplorerScan {
  import opened JournalGraph
  import opened StrictSpec
  import opened HashIndex
  import opened ExplorerSpec
  import opened ExplorerIndex
  import opened ExplorerHistogram
  import C = OffsetCache

  /** What is known of a DATA object: of no interest, or a value that is counted. */
  type Class = c: C.Class | c.Irrelevant? || c.Value? witness C.Irrelevant

  /** A field a pass looks for, and what it counts of it. */
  datatype Tracked = Tracked(name: bytes, facet: bool, histogram: bool)

  /** A counted value: its field, its label and its counts. */
  datatype Counter = Counter(field: nat, text: bytes, count: nat, buckets: seq<nat>)

  /** What is known of a field: the last row that had it, how many had it, and how many lacked it. */
  datatype FieldState = FieldState(lastSeen: nat, seenRows: nat, unset: seq<nat>)

  // ----- appending a row

  lemma RefAppended(j: Journal, rows: seq<uint64>, e: uint64, d: uint64)
    ensures RefCount(j, rows + [e], d) == RefCount(j, rows, d) + multiset(Items(j, e))[d]
  {
    assert (rows + [e])[..|rows|] == rows;
  }

  lemma RefInAppended(j: Journal, b: Buckets, rows: seq<uint64>, e: uint64, d: uint64, k: int)
    ensures RefCount(j, RowsIn(j, b, rows + [e], k), d) ==
              RefCount(j, RowsIn(j, b, rows, k), d) + if BucketOf(j, b, e) == k then multiset(Items(j, e))[d] else 0
  {
    RowsInAppended(j, b, rows, e, k);
    RefAppended(j, RowsIn(j, b, rows, k), e, d);
  }

  lemma {:induction false} NotReferenced(j: Journal, rows: seq<uint64>, d: uint64)
    requires forall e :: e in rows ==> d !in Items(j, e)
    ensures RefCount(j, rows, d) == 0
    decreases |rows|
  {
    if rows != [] {
      var n := |rows| - 1;
      assert rows[n] in rows;
      NotReferenced(j, rows[..n], d);
      assert d !in multiset(Items(j, rows[n]));
    }
  }

  /** The counter of a DATA object after `rows`. */
  ghost predicate CounterRight(j: Journal, b: Buckets, rows: seq<uint64>, t: Tracked, c: Counter, d: uint64) {
    && (t.facet ==> c.count == RefCount(j, rows, d))
    && (t.histogram ==> BucketsRight(j, b, rows, c.buckets, d))
  }

  ghost predicate BucketsRight(j: Journal, b: Buckets, rows: seq<uint64>, buckets: seq<nat>, d: uint64) {
    |buckets| == b.count && forall k :: 0 <= k < b.count ==> buckets[k] == RefCount(j, RowsIn(j, b, rows, k), d)
  }

  /** The counter after `n` references by one row in bucket `at`. */
  function Bumps(t: Tracked, c: Counter, at: int, n: nat): Counter
    requires t.histogram ==> at < |c.buckets|
  {
    c.(count := if t.facet then c.count + n else c.count,
       buckets := if t.histogram && at >= 0 then c.buckets[at := c.buckets[at] + n] else c.buckets)
  }

  lemma BumpsTwice(t: Tracked, c: Counter, at: int, n: nat)
    requires t.histogram ==> at < |c.buckets|
    ensures Bumps(t, c, at, 0) == c && Bumps(t, Bumps(t, c, at, n), at, 1) == Bumps(t, c, at, n + 1)
  {
    if t.histogram && at >= 0 {
      assert c.buckets[at := c.buckets[at] + 0] == c.buckets;
      assert c.buckets[at := c.buckets[at] + n][at := c.buckets[at] + n + 1] == c.buckets[at := c.buckets[at] + n + 1];
    }
  }

  lemma CounterStep(j: Journal, b: Buckets, rows: seq<uint64>, t: Tracked, c: Counter, d: uint64, e: uint64)
    requires CounterRight(j, b, rows, t, c, d)
    ensures CounterRight(j, b, rows + [e], t, Bumps(t, c, BucketOf(j, b, e), multiset(Items(j, e))[d]), d)
  {
    RefAppended(j, rows, e, d);
    if t.histogram {
      var after := Bumps(t, c, BucketOf(j, b, e), multiset(Items(j, e))[d]);
      forall k | 0 <= k < b.count ensures after.buckets[k] == RefCount(j, RowsIn(j, b, rows + [e], k), d) {
        RefInAppended(j, b, rows, e, d, k);
      }
    }
  }

  function ZeroBuckets(b: Buckets, histogram: bool): seq<nat> {
    if histogram then seq(b.count, _ => 0) else []
  }

  lemma NewCounter(j: Journal, b: Buckets, rows: seq<uint64>, t: Tracked, field: nat, text: bytes, d: uint64)
    requires forall e :: e in rows ==> d !in Items(j, e)
    ensures CounterRight(j, b, rows, t, Counter(field, text, 0, ZeroBuckets(b, t.histogram)), d)
  {
    NotReferenced(j, rows, d);
    forall k | 0 <= k < b.count ensures RefCount(j, RowsIn(j, b, rows, k), d) == 0 {
      RowsInMembers(j, b, rows, k);
      NotReferenced(j, RowsIn(j, b, rows, k), d);
    }
  }

  ghost predicate FieldRight(j: Journal, b: Buckets, rows: seq<uint64>, t: Tracked, s: FieldState) {
    && (t.facet ==> s.seenRows == |rows| - UnsetCount(j, rows, t.name))
    && (t.histogram ==> UnsetRight(j, b, rows, t.name, s.unset))
  }

  ghost predicate UnsetRight(j: Journal, b: Buckets, rows: seq<uint64>, field: bytes, unset: seq<nat>) {
    |unset| == b.count && forall k :: 0 <= k < b.count ==> unset[k] == UnsetCount(j, RowsIn(j, b, rows, k), field)
  }

  /** The field's state after a row in bucket `at` that had it or not. */
  function FinishRow(t: Tracked, s: FieldState, at: int, seen: bool): FieldState
    requires t.histogram ==> at < |s.unset|
  {
    if seen then (if t.facet then s.(seenRows := s.seenRows + 1) else s)
    else if t.histogram && at >= 0 then s.(unset := s.unset[at := s.unset[at] + 1])
    else s
  }

  lemma FieldStep(j: Journal, b: Buckets, rows: seq<uint64>, t: Tracked, s: FieldState, e: uint64, seen: bool)
    requires FieldRight(j, b, rows, t, s) && seen == HasField(j, e, t.name)
    ensures FieldRight(j, b, rows + [e], t, FinishRow(t, s, BucketOf(j, b, e), seen))
  {
    UnsetAppended(j, rows, e, t.name);
    if t.histogram {
      var after := FinishRow(t, s, BucketOf(j, b, e), seen);
      forall k | 0 <= k < b.count ensures after.unset[k] == UnsetCount(j, RowsIn(j, b, rows + [e], k), t.name) {
        UnsetCell(j, b, rows, e, t.name, k);
      }
    }
  }

  // ----- classes found so far

  ghost predicate Mirrors(contents: map<uint64, int>, cache: map<uint64, Class>) {
    contents.Keys == cache.Keys && forall d :: d in cache ==> contents[d] == C.Raw(cache[d])
  }

  lemma StoredNext(contents: map<uint64, int>, cache: map<uint64, Class>, d: uint64, c: Class)
    requires Mirrors(contents, cache)
    ensures Mirrors(contents[d := C.Raw(c)], cache[d := c])
  {
  }

  /** Classes and counted values were only added, and only for objects not classified before. */
  ghost predicate Grown(c0: map<uint64, Class>, v0: seq<uint64>, c1: map<uint64, Class>, v1: seq<uint64>) {
    && (forall x :: x in c0 ==> x in c1 && c1[x] == c0[x])
    && v0 <= v1 && forall i :: |v0| <= i < |v1| ==> v1[i] !in c0
  }

  lemma GrownBy(cache: map<uint64, Class>, data: seq<uint64>, d: uint64, c: Class)
    requires d !in cache
    ensures Grown(cache, data, cache[d := c], data) && Grown(cache, data, cache[d := c], data + [d])
  {
  }

  // ----- the accumulator

  class Accumulator {
    const j: Journal
    const fields: seq<Tracked>
    const b: Buckets
    const table: C.OffsetClassCache

    var values: seq<Counter>
    var states: seq<FieldState>
    var rowsMatched: nat
    var rowID: nat
    ghost var cache: map<uint64, Class>
    ghost var valueData: seq<uint64>
    ghost var rows: seq<uint64>

    /** Every cached DATA object is classified right, and every counter belongs to one. */
    ghost predicate Classified()
      reads this`cache, this`values, this`valueData
    {
      && |valueData| == |values|
      && (forall d :: d in cache ==> ClassRight(d))
      && (forall i :: 0 <= i < |values| ==> CounterKnown(i))
    }

    ghost predicate ClassRight(d: uint64)
      reads this`cache, this`values, this`valueData
      requires d in cache && |valueData| == |values|
    {
      && d in j.data
      && match cache[d] {
           case Irrelevant => forall f :: 0 <= f < |fields| ==> !IsValue(j.data[d].payload, fields[f].name)
           case Value(i) => i < |values| && valueData[i] == d
         }
    }

    ghost predicate CounterKnown(i: nat)
      reads this`cache, this`values, this`valueData
      requires i < |values| == |valueData|
    {
      var d, c := valueData[i], values[i];
      && d in cache && cache[d] == C.Value(i) && d in j.data && c.field < |fields|
      && IsValue(j.data[d].payload, fields[c.field].name) && c.text == Label(j.data[d].payload)
    }

    /** The counters hold the counts of the finished rows. */
    ghost predicate Right()
      reads this`cache, this`values, this`valueData, this`rows, this`states, this`rowsMatched
    {
      && |valueData| == |values| && |states| == |fields| && rowsMatched == |rows|
      && CountersRight(rows) && FieldsRight(rows)
      && (forall e, d :: e in rows && d in Items(j, e) ==> d in cache)
    }

    ghost predicate CountersRight(rows: seq<uint64>)
      reads this`values, this`valueData
      requires |valueData| == |values|
    {
      forall i :: 0 <= i < |values| ==> (values[i].field < |fields| && CounterRight(j, b, rows, fields[values[i].field], values[i], valueData[i]))
    }

    ghost predicate FieldsRight(rows: seq<uint64>)
      reads this`states
      requires |states| == |fields|
    {
      forall f :: 0 <= f < |fields| ==> FieldRight(j, b, rows, fields[f], states[f])
    }

    /** No field was seen in a row that is still to come. */
    ghost predicate Seen()
      reads this`states, this`rowID
    {
      forall f :: 0 <= f < |states| ==> states[f].lastSeen <= rowID
    }

    /** The table of classes holds the classes found so far. */
    ghost predicate Stored()
      reads this`cache, table, table.slots
    {
      table.Valid() && 0 !in j.data && Mirrors(table.contents, cache)
    }

    ghost predicate Valid()
      reads this, table, table.slots
    {
      Classified() && Right() && Seen() && Stored() && Distinct(fields)
    }

    constructor (j: Journal, fields: seq<Tracked>, b: Buckets, hash: C.Hash)
      requires Distinct(fields) && 0 !in j.data
      ensures this.j == j && this.fields == fields && this.b == b && Valid() && rows == []
      ensures fresh(table) && fresh(table.slots)
    {
      this.j, this.fields, this.b := j, fields, b;
      table := new C.OffsetClassCache(hash);
      cache, values, rowsMatched, rowID := map[], [], 0, 0;
      states := seq(|fields|, f requires 0 <= f < |fields| => FieldState(0, 0, ZeroBuckets(b, fields[f].histogram)));
      valueData, rows := [], [];
    }

    /** The tracked field that a payload is a value of. */
    method FieldOf(payload: bytes) returns (found: bool, f: nat)
      ensures found ==> f < |fields| && IsValue(payload, fields[f].name)
      ensures !found ==> forall g :: 0 <= g < |fields| ==> !IsValue(payload, fields[g].name)
    {
      found, f := false, 0;
      if EQUALS in payload {
        var name := FieldName(payload);
        while f < |fields|
          invariant f <= |fields| && forall g :: 0 <= g < f ==> !IsValue(payload, fields[g].name)
        {
          if fields[f].name == name { return true, f; }
          f := f + 1;
        }
      }
    }

    /** What the table knows of a DATA object. */
    method Known(d: uint64) returns (hit: bool, c: Class)
      requires Classified() && Stored()
      ensures hit <==> d in cache
      ensures hit ==> d in j.data && c == cache[d]
    {
      var h, k := table.Lookup(d);
      hit, c := h, C.Irrelevant;
      if hit {
        assert ClassRight(d);
        C.RawRoundTrip(cache[d]);
        c := k;
      }
    }

    /** Classifies a DATA object the first time a row refers to it. */
    method Classify(d: uint64) returns (r: Result<Class>)
      requires Valid()
      modifies this`cache, this`values, this`valueData, table, table.slots
      ensures table.slots == old(table.slots) || fresh(table.slots)
      ensures Valid() && Grown(old(cache), old(valueData), cache, valueData)
      ensures r.Ok? <==> d in j.data
      ensures r.Ok? ==> d in cache && cache[d] == r.value
    {
      var hit, c := Known(d);
      if hit { return Ok(c); }
      if d !in j.data { return Err(CorruptObject); }
      c := ClassifyNew(d);
      return Ok(c);
    }

    method ClassifyNew(d: uint64) returns (c: Class)
      requires Valid() && d !in cache && d in j.data
      modifies this`cache, this`values, this`valueData, table, table.slots
      ensures table.slots == old(table.slots) || fresh(table.slots)
      ensures Valid() && Grown(old(cache), old(valueData), cache, valueData) && d in cache && cache[d] == c
    {
      c := AddClass(d);
      Store(d, c, old(cache));
    }

    /** Enters a new class into the table. */
    method Store(d: uint64, c: Class, ghost before: map<uint64, Class>)
      requires table.Valid() && Mirrors(table.contents, before) && cache == before[d := c] && d in j.data && 0 !in j.data
      modifies table, table.slots
      ensures Stored() && (table.slots == old(table.slots) || fresh(table.slots))
    {
      StoredNext(table.contents, before, d, c);
      table.Insert(d, c);
    }

    method AddClass(d: uint64) returns (c: Class)
      requires Classified() && Right() && d !in cache && d in j.data
      modifies this`cache, this`values, this`valueData
      ensures Classified() && Right() && cache == old(cache)[d := c] && Grown(old(cache), old(valueData), cache, valueData)
    {
      var found, f := FieldOf(j.data[d].payload);
      c := if found then C.Value(|values|) else C.Irrelevant;
      GrownBy(cache, valueData, d, c);
      if found { AddCounter(d, f); } else { AddIrrelevant(d); }
    }

    method AddIrrelevant(d: uint64)
      requires Classified() && Right() && d !in cache && d in j.data
      requires forall g :: 0 <= g < |fields| ==> !IsValue(j.data[d].payload, fields[g].name)
      modifies this`cache
      ensures Classified() && Right() && cache == old(cache)[d := C.Irrelevant]
    {
      label before:
      cache := cache[d := C.Irrelevant];
      forall x | x in cache ensures ClassRight(x) {
        if x != d { assert old@before(ClassRight(x)); }
      }
      forall i | 0 <= i < |values| ensures CounterKnown(i) {
        assert old@before(CounterKnown(i));
      }
    }

    /** Starts a counter for a new value. */
    method AddCounter(d: uint64, f: nat)
      requires Classified() && Right() && d !in cache && d in j.data && f < |fields| && IsValue(j.data[d].payload, fields[f].name)
      modifies this`cache, this`values, this`valueData
      ensures Classified() && Right() && cache == old(cache)[d := C.Value(|old(values)|)] && valueData == old(valueData) + [d]
    {
      NewCounter(j, b, rows, fields[f], f, Label(j.data[d].payload), d);
      label before:
      cache := cache[d := C.Value(|values|)];
      values := values + [Counter(f, Label(j.data[d].payload), 0, ZeroBuckets(b, fields[f].histogram))];
      valueData := valueData + [d];
      forall x | x in cache ensures ClassRight(x) {
        if x != d { assert old@before(ClassRight(x)); }
      }
      forall i | 0 <= i < |values| ensures CounterKnown(i) {
        if i < |old@before(values)| { assert old@before(CounterKnown(i)); }
      }
    }

    // ----- one row

    /** The references of a row so far: each to a counted value is deferred, and the fields they
        belong to are marked. */
    ghost predicate Scanned(items: seq<uint64>, deferred: seq<nat>)
      reads this`cache, this`values, this`valueData, this`states, this`rowID
      requires |valueData| == |values|
    {
      && (forall d :: d in items ==> d in cache && d in j.data)
      && (forall i :: i in deferred ==> i < |values|)
      && (forall i :: 0 <= i < |values| ==> multiset(deferred)[i] == multiset(items)[valueData[i]])
      && |states| == |fields|
      && (forall f :: 0 <= f < |fields| ==> (states[f].lastSeen == rowID <==> AnyValue(items, fields[f].name)))
    }

    ghost predicate AnyValue(items: seq<uint64>, field: bytes) {
      exists d :: d in items && d in j.data && IsValue(j.data[d].payload, field)
    }

    method MarkSeen(f: nat)
      requires f < |states| && Right() && Seen()
      modifies this`states
      ensures Right() && Seen() && |states| == |old(states)|
      ensures states[f].lastSeen == rowID && forall g :: 0 <= g < |states| && g != f ==> states[g].lastSeen == old(states)[g].lastSeen
    {
      states := states[f := states[f].(lastSeen := rowID)];
    }

    /** A newly classified object has not been referred to by this row. */
    lemma StillScanned(items: seq<uint64>, deferred: seq<nat>, oldCache: map<uint64, Class>, oldData: seq<uint64>)
      requires Classified() && Grown(oldCache, oldData, cache, valueData)
      requires (forall d :: d in items ==> d in oldCache && d in j.data) && (forall i :: i in deferred ==> i < |oldData|)
      requires forall i :: 0 <= i < |oldData| ==> multiset(deferred)[i] == multiset(items)[oldData[i]]
      requires |states| == |fields| && forall f :: 0 <= f < |fields| ==> (states[f].lastSeen == rowID <==> AnyValue(items, fields[f].name))
      ensures Scanned(items, deferred)
    {
      forall i | 0 <= i < |values| ensures multiset(deferred)[i] == multiset(items)[valueData[i]] {
        if i >= |oldData| {
          Absent(deferred, i);
          Absent(items, valueData[i]);
        }
      }
    }

    /** Another reference is deferred for the one value it is to. */
    lemma DeferredMore(items: seq<uint64>, deferred: seq<nat>, d: uint64)
      requires Classified() && d in cache
      requires forall i :: 0 <= i < |values| ==> multiset(deferred)[i] == multiset(items)[valueData[i]]
      ensures forall i :: 0 <= i < |values| ==> multiset(Deferred(deferred, d))[i] == multiset(items + [d])[valueData[i]]
    {
      assert ClassRight(d);
      forall i: nat | i < |values| ensures multiset(Deferred(deferred, d))[i] == multiset(items + [d])[valueData[i]] {
        assert CounterKnown(i);
      }
    }

    ghost function Deferred(deferred: seq<nat>, d: uint64): seq<nat>
      reads this`cache
      requires d in cache
    {
      if cache[d].Value? then deferred + [cache[d].index] else deferred
    }

    /** Another reference is to a value of at most one field. */
    lemma SeenMore(items: seq<uint64>, d: uint64, old_: seq<FieldState>, f: nat)
      requires Classified() && |states| == |fields| == |old_| && f < |fields| && d in cache && d in j.data && Distinct(fields) && ClassRight(d)
      requires old_[f].lastSeen == rowID <==> AnyValue(items, fields[f].name)
      requires cache[d].Value? && f == values[cache[d].index].field ==> states[f].lastSeen == rowID
      requires cache[d].Irrelevant? || f != values[cache[d].index].field ==> states[f].lastSeen == old_[f].lastSeen
      ensures states[f].lastSeen == rowID <==> AnyValue(items + [d], fields[f].name)
    {
      AnyValueMore(items, d, fields[f].name);
      if cache[d].Value? { assert CounterKnown(cache[d].index); }
    }

    lemma ItemScanned(items: seq<uint64>, deferred: seq<nat>, d: uint64, old_: seq<FieldState>)
      requires Classified() && |states| == |fields| == |old_| && d in cache && d in j.data
      requires (forall x :: x in items ==> x in cache && x in j.data) && (forall i :: i in deferred ==> i < |values|)
      requires forall i :: 0 <= i < |values| ==> multiset(deferred)[i] == multiset(items)[valueData[i]]
      requires forall f :: 0 <= f < |fields| ==> (old_[f].lastSeen == rowID <==> AnyValue(items, fields[f].name))
      requires Distinct(fields) && ClassRight(d)
      requires forall f :: 0 <= f < |fields| && cache[d].Value? && f == values[cache[d].index].field ==> states[f].lastSeen == rowID
      requires forall f :: 0 <= f < |fields| && (cache[d].Irrelevant? || f != values[cache[d].index].field) ==> states[f].lastSeen == old_[f].lastSeen
      ensures Scanned(items + [d], Deferred(deferred, d))
    {
      DeferredMore(items, deferred, d);
      forall f | 0 <= f < |fields| ensures states[f].lastSeen == rowID <==> AnyValue(items + [d], fields[f].name) {
        SeenMore(items, d, old_, f);
      }
    }

    lemma AnyValueMore(items: seq<uint64>, d: uint64, field: bytes)
      requires d in j.data
      ensures AnyValue(items + [d], field) <==> AnyValue(items, field) || IsValue(j.data[d].payload, field)
    {
      if AnyValue(items, field) {
        var x :| x in items && x in j.data && IsValue(j.data[x].payload, field);
        assert x in items + [d];
      }
      if IsValue(j.data[d].payload, field) { assert d in items + [d]; }
    }

    /** Defers a classified reference if it is to a tracked value, and marks its field. */
    method Note(d: uint64, c: Class, ghost items: seq<uint64>, deferred: seq<nat>) returns (more: seq<nat>)
      requires Classified() && Right() && Seen() && Distinct(fields) && d in cache && d in j.data && cache[d] == c && Scanned(items, deferred)
      modifies this`states
      ensures Right() && Seen() && Scanned(items + [d], more)
    {
      ghost var before := states;
      assert ClassRight(d);
      more := deferred;
      if c.Value? {
        assert CounterKnown(c.index);
        MarkSeen(values[c.index].field);
        more := deferred + [c.index];
      }
      ItemScanned(items, deferred, d, before);
    }

    /** Classifies a reference of the current row. */
    method ClassifyItem(d: uint64, ghost items: seq<uint64>, ghost deferred: seq<nat>) returns (c: Result<Class>)
      requires Valid() && Scanned(items, deferred)
      modifies this`cache, this`values, this`valueData, table, table.slots
      ensures Valid() && (table.slots == old(table.slots) || fresh(table.slots))
      ensures c.Ok? <==> d in j.data
      ensures c.Ok? ==> d in cache && cache[d] == c.value && Scanned(items, deferred)
    {
      ghost var c0, v0 := cache, valueData;
      c := Classify(d);
      StillScanned(items, deferred, c0, v0);
    }

    /** Scans one reference of the current row. */
    method ScanItem(d: uint64, ghost items: seq<uint64>, deferred: seq<nat>) returns (r: Result<seq<nat>>)
      requires Valid() && Scanned(items, deferred)
      modifies this`cache, this`values, this`valueData, this`states, table, table.slots
      ensures Valid() && (table.slots == old(table.slots) || fresh(table.slots))
      ensures r.Ok? <==> d in j.data
      ensures r.Ok? ==> Scanned(items + [d], r.value)
    {
      var c := ClassifyItem(d, items, deferred);
      if c.Err? { return Err(c.error); }
      var more := Note(d, c.value, items, deferred);
      return Ok(more);
    }

    /** Scans the references of a row up to one more. */
    method ScanNext(items: seq<uint64>, n: nat, deferred: seq<nat>) returns (r: Result<seq<nat>>)
      requires Valid() && n < |items| && Scanned(items[..n], deferred)
      modifies this`cache, this`values, this`valueData, this`states, table, table.slots
      ensures Valid() && (table.slots == old(table.slots) || fresh(table.slots))
      ensures r.Ok? <==> items[n] in j.data
      ensures r.Ok? ==> Scanned(items[..n + 1], r.value)
    {
      r := ScanItem(items[n], items[..n], deferred);
      TakeOneMore(items, n);
    }

    method ScanItems(items: seq<uint64>) returns (r: Result<seq<nat>>)
      requires Valid() && Scanned([], [])
      modifies this`cache, this`values, this`valueData, this`states, table, table.slots
      ensures Valid() && (table.slots == old(table.slots) || fresh(table.slots))
      ensures r.Ok? ==> Scanned(items, r.value)
      ensures r.Err? ==> exists d :: d in items && d !in j.data
    {
      r := Ok([]);
      assert items[..0] == [];
      for n := 0 to |items|
        invariant Valid() && r.Ok? && Scanned(items[..n], r.value) && (table.slots == old(table.slots) || fresh(table.slots))
      {
        r := ScanNext(items, n, r.value);
        if r.Err? { return; }
      }
      assert items[..|items|] == items;
    }

    /** Scans a row: every reference to a tracked value is deferred, in order. */
    method ScanRow(e: uint64) returns (r: Result<seq<nat>>)
      requires Valid() && e in j.entries
      modifies this`cache, this`values, this`valueData, this`states, this`rowID, table, table.slots
      ensures Valid() && (table.slots == old(table.slots) || fresh(table.slots))
      ensures r.Ok? <==> forall d :: d in Items(j, e) ==> d in j.data
      ensures r.Ok? ==> Scanned(Items(j, e), r.value)
    {
      rowID := rowID + 1;
      r := ScanItems(j.entries[e].items);
    }

    /** The counters after the deferred references were counted `n` of them in. */
    ghost predicate Applied(start: seq<Counter>, now: seq<Counter>, deferred: seq<nat>, at: int) {
      && |now| == |start|
      && forall i :: 0 <= i < |now| ==> AppliedAt(start[i], now[i], multiset(deferred)[i], at)
    }

    ghost predicate AppliedAt(before: Counter, after: Counter, n: nat, at: int) {
      && before.field < |fields| && (fields[before.field].histogram ==> at < |before.buckets|)
      && after == Bumps(fields[before.field], before, at, n)
    }

    lemma AppliedNext(start: seq<Counter>, now: seq<Counter>, deferred: seq<nat>, i: nat, at: int)
      requires Applied(start, now, deferred, at) && i < |now|
      ensures now[i].field == start[i].field < |fields| && (fields[now[i].field].histogram ==> at < |now[i].buckets|)
      ensures Applied(start, now[i := Bumps(fields[now[i].field], now[i], at, 1)], deferred + [i], at)
    {
      assert AppliedAt(start[i], now[i], multiset(deferred)[i], at);
      BumpsTwice(fields[start[i].field], start[i], at, multiset(deferred)[i]);
      assert multiset(deferred + [i]) == multiset(deferred) + multiset{i};
      var next := now[i := Bumps(fields[now[i].field], now[i], at, 1)];
      forall k | 0 <= k < |next| ensures AppliedAt(start[k], next[k], multiset(deferred + [i])[k], at) {
        if k != i { assert AppliedAt(start[k], now[k], multiset(deferred)[k], at); }
      }
    }

    lemma NothingApplied(start: seq<Counter>, at: int)
      requires forall i :: 0 <= i < |start| ==> start[i].field < |fields| && (fields[start[i].field].histogram ==> at < |start[i].buckets|)
      ensures Applied(start, start, [], at)
    {
      forall i | 0 <= i < |start| ensures AppliedAt(start[i], start[i], multiset([])[i], at) {
        BumpsTwice(fields[start[i].field], start[i], at, 0);
      }
    }

    /** Counts the deferred references of an accepted row. */
    method ApplyDeferred(deferred: seq<nat>, at: int)
      requires forall i :: i in deferred ==> i < |values|
      requires forall i :: 0 <= i < |values| ==> values[i].field < |fields| && (fields[values[i].field].histogram ==> at < |values[i].buckets|)
      modifies this`values
      ensures Applied(old(values), values, deferred, at)
    {
      ghost var start := values;
      NothingApplied(start, at);
      assert deferred[..0] == [];
      for n := 0 to |deferred|
        invariant Applied(start, values, deferred[..n], at)
      {
        assert deferred[..n+1] == deferred[..n] + [deferred[n]];
        var i := deferred[n];
        assert i in deferred;
        AppliedNext(start, values, deferred[..n], i, at);
        values := values[i := Bumps(fields[values[i].field], values[i], at, 1)];
      }
      assert deferred[..|deferred|] == deferred;
    }

    /** Counts an accepted row for every field it has, and for every field it lacks. */
    method FinishFields(at: int)
      requires |states| == |fields| && forall f :: 0 <= f < |states| ==> (fields[f].histogram ==> at < |states[f].unset|)
      modifies this`states
      ensures |states| == |old(states)|
      ensures forall f :: 0 <= f < |states| ==>
                && (fields[f].histogram ==> at < |old(states)[f].unset|)
                && states[f] == FinishRow(fields[f], old(states)[f], at, old(states)[f].lastSeen == rowID)
    {
      ghost var start := states;
      for f := 0 to |states|
        invariant |states| == |start|
        invariant forall g :: 0 <= g < f ==>
                    (fields[g].histogram ==> at < |start[g].unset|) && states[g] == FinishRow(fields[g], start[g], at, start[g].lastSeen == rowID)
        invariant forall g :: f <= g < |states| ==> states[g] == start[g]
      {
        states := states[f := FinishRow(fields[f], states[f], at, states[f].lastSeen == rowID)];
      }
    }

    lemma CountersAfter(e: uint64, before: seq<Counter>, deferred: seq<nat>)
      requires |before| == |values| == |valueData| && Applied(before, values, deferred, BucketOf(j, b, e))
      requires forall i :: 0 <= i < |values| ==>
                 before[i].field < |fields| && CounterRight(j, b, rows, fields[before[i].field], before[i], valueData[i])
      requires forall i :: 0 <= i < |values| ==> multiset(deferred)[i] == multiset(Items(j, e))[valueData[i]]
      ensures CountersRight(rows + [e])
    {
      forall i | 0 <= i < |values| ensures values[i].field < |fields| && CounterRight(j, b, rows + [e], fields[values[i].field], values[i], valueData[i]) {
        assert AppliedAt(before[i], values[i], multiset(deferred)[i], BucketOf(j, b, e));
        CounterStep(j, b, rows, fields[before[i].field], before[i], valueData[i], e);
      }
    }

    lemma FieldsAfter(e: uint64, before: seq<FieldState>)
      requires |before| == |states| == |fields| && e in j.entries
      requires forall f :: 0 <= f < |fields| ==>
                 && FieldRight(j, b, rows, fields[f], before[f])
                 && states[f] == FinishRow(fields[f], before[f], BucketOf(j, b, e), before[f].lastSeen == rowID)
      requires forall f :: 0 <= f < |fields| ==> (before[f].lastSeen == rowID <==> AnyValue(Items(j, e), fields[f].name))
      ensures FieldsRight(rows + [e])
    {
      forall f | 0 <= f < |fields| ensures FieldRight(j, b, rows + [e], fields[f], states[f]) {
        AnyIsField(e, fields[f].name);
        FieldStep(j, b, rows, fields[f], before[f], e, before[f].lastSeen == rowID);
      }
    }

    lemma AnyIsField(e: uint64, field: bytes)
      requires e in j.entries
      ensures AnyValue(Items(j, e), field) <==> HasField(j, e, field)
    {
      if HasField(j, e, field) {
        var d :| Contains(j, e, d) && d in j.data && IsValue(j.data[d].payload, field);
        assert d in Items(j, e);
      }
      if AnyValue(Items(j, e), field) {
        var d :| d in Items(j, e) && d in j.data && IsValue(j.data[d].payload, field);
        assert Contains(j, e, d);
      }
    }

    method CountRow(e: uint64, deferred: seq<nat>)
      requires Classified() && CountersRight(rows) && Scanned(Items(j, e), deferred)
      modifies this`values
      ensures Classified() && CountersRight(rows + [e])
    {
      ghost var before := values;
      label start:
      ApplyDeferred(deferred, BucketOf(j, b, e));
      CountersAfter(e, before, deferred);
      forall i | 0 <= i < |values| ensures CounterKnown(i) {
        assert old@start(CounterKnown(i));
        assert AppliedAt(before[i], values[i], multiset(deferred)[i], BucketOf(j, b, e));
      }
      forall d | d in cache ensures ClassRight(d) {
        assert old@start(ClassRight(d));
      }
    }

    method CountFields(e: uint64)
      requires |states| == |fields| && FieldsRight(rows) && Seen() && e in j.entries
      requires forall f :: 0 <= f < |fields| ==> (states[f].lastSeen == rowID <==> AnyValue(Items(j, e), fields[f].name))
      modifies this`states
      ensures |states| == |fields| && FieldsRight(rows + [e]) && Seen()
    {
      ghost var before := states;
      FinishFields(BucketOf(j, b, e));
      FieldsAfter(e, before);
    }

    /** Counts a scanned row. */
    method AcceptRow(e: uint64, deferred: seq<nat>)
      requires Valid() && e in j.entries && Scanned(Items(j, e), deferred)
      modifies this`values, this`states, this`rowsMatched, this`rows
      ensures Valid() && rows == old(rows) + [e]
    {
      CountRow(e, deferred);
      CountFields(e);
      rowsMatched := rowsMatched + 1;
      rows := rows + [e];
    }

    // ----- results

    /** The field's DATA objects among the first `n` values. */
    ghost function Done(f: nat, n: nat): set<uint64>
      reads this`values, this`valueData
      requires n <= |values| == |valueData|
    {
      set i | 0 <= i < n && values[i].field == f :: valueData[i]
    }

    lemma DoneStep(f: nat, n: nat)
      requires Classified() && n < |values|
      ensures Done(f, n + 1) == Done(f, n) + if values[n].field == f then {valueData[n]} else {}
      ensures valueData[n] !in Done(f, n)
    {
      forall i | 0 <= i < n ensures valueData[i] != valueData[n] {
        assert CounterKnown(i) && CounterKnown(n);
      }
    }

    /** Adds up the counts of a field's values. */
    method Collect(f: nat, counts: seq<nat>, ghost rs: seq<uint64>, ghost hasher: Hasher, ghost good: bool) returns (t: Tally)
      requires Classified() && f < |fields| && |counts| == |values|
      requires forall i :: 0 <= i < |values| && values[i].field == f ==> counts[i] == RefCount(j, rs, valueData[i])
      requires good ==> PayloadsUnique(j, hasher) && 0 !in j.data
      ensures good ==> RefTallyOf(t, j, rs, fields[f].name, Done(f, |values|))
    {
      t := map[];
      for n := 0 to |values|
        invariant good ==> RefTallyOf(t, j, rs, fields[f].name, Done(f, n))
      {
        assert CounterKnown(n);
        if values[n].field == f {
          if good {
            DoneStep(f, n);
            RefTallyStep(t, j, hasher, rs, fields[f].name, Done(f, n), valueData[n]);
          }
          if counts[n] != 0 { t := Add(t, values[n].text, counts[n]); }
        } else if good {
          DoneStep(f, n);
          assert Done(f, n + 1) == Done(f, n);
        }
      }
    }

    /** Values that no row referred to are not counted anywhere. */
    lemma CollectedAll(t: Tally, f: nat, rs: seq<uint64>)
      requires Valid() && f < |fields| && RefTallyOf(t, j, rs, fields[f].name, Done(f, |values|)) && ReferencesResolve(j) && 0 !in j.data
      requires forall e :: e in rs ==> e in rows
      ensures forall text :: At(t, text) == RefCount(j, rs, DataFor(j, fields[f].name, text))
    {
      forall text ensures At(t, text) == RefCount(j, rs, DataFor(j, fields[f].name, text)) {
        var d := DataFor(j, fields[f].name, text);
        if d !in Done(f, |values|) {
          if d in j.data { LabelOfHolder(j, fields[f].name, text, d); Uncounted(f, d, rs); } else { NeverContained(j, rs, d); }
        }
      }
    }

    lemma CachedIsDone(f: nat, d: uint64)
      requires Valid() && f < |fields| && d in cache && d in j.data && IsValue(j.data[d].payload, fields[f].name)
      ensures d in Done(f, |values|)
    {
      assert ClassRight(d);
      var i := cache[d].index;
      assert CounterKnown(i);
      assert values[i].field == f;
    }

    lemma Uncounted(f: nat, d: uint64, rs: seq<uint64>)
      requires Valid() && f < |fields| && d in j.data && IsValue(j.data[d].payload, fields[f].name) && d !in Done(f, |values|)
      requires forall e :: e in rs ==> e in rows
      ensures RefCount(j, rs, d) == 0
    {
      if d in cache { CachedIsDone(f, d); }
      NotReferenced(j, rs, d);
    }

    ghost predicate Resolved(hasher: Hasher) {
      PayloadsUnique(j, hasher) && 0 !in j.data && ReferencesResolve(j)
    }

    lemma Lacking(f: nat)
      requires Right() && f < |fields| && fields[f].facet
      ensures states[f].seenRows == rowsMatched - UnsetCount(j, rows, fields[f].name)
    {
      assert FieldRight(j, b, rows, fields[f], states[f]);
    }

    /** The facet of a field over the finished rows. */
    method Facet(f: nat, ghost hasher: Hasher) returns (t: Tally)
      requires Valid() && f < |fields| && fields[f].facet
      ensures Resolved(hasher) ==> ReferenceTally(t, j, rows, fields[f].name)
    {
      var counts := seq(|values|, i requires 0 <= i < |values| reads this => values[i].count);
      t := Collect(f, counts, rows, hasher, Resolved(hasher));
      var unset := if rowsMatched > states[f].seenRows then rowsMatched - states[f].seenRows else 0;
      assert unset == UnsetCount(j, rows, fields[f].name) by { Lacking(f); }
      if Resolved(hasher) {
        CollectedAll(t, f, rows);
        ReferenceUnset(j, rows, fields[f].name, t, AddSome(t, UNSET, unset));
      }
      t := AddSome(t, UNSET, unset);
    }

    /** One bucket of the histogram of a field. */
    method Bucket(f: nat, k: nat, ghost hasher: Hasher) returns (t: Tally)
      requires Valid() && f < |fields| && fields[f].histogram && k < b.count
      ensures Resolved(hasher) ==> ReferenceTally(t, j, RowsIn(j, b, rows, k), fields[f].name)
    {
      ghost var rs := RowsIn(j, b, rows, k);
      assert forall i :: 0 <= i < |values| ==> (values[i].field < |fields| && CounterRight(j, b, rows, fields[values[i].field], values[i], valueData[i]));
      var counts := seq(|values|, i requires 0 <= i < |values| reads this => if k < |values[i].buckets| then values[i].buckets[k] else 0);
      t := Collect(f, counts, rs, hasher, Resolved(hasher));
      if Resolved(hasher) {
        RowsInMembers(j, b, rows, k);
        CollectedAll(t, f, rs);
      }
      assert FieldRight(j, b, rows, fields[f], states[f]);
      if Resolved(hasher) { ReferenceUnset(j, rs, fields[f].name, t, AddSome(t, UNSET, states[f].unset[k])); }
      t := AddSome(t, UNSET, states[f].unset[k]);
    }

    /** The histogram of a field over the finished rows. */
    method HistogramOfField(f: nat, ghost hasher: Hasher) returns (h: Histogram)
      requires Valid() && f < |fields| && fields[f].histogram
      ensures Resolved(hasher) ==> ReferenceHistogram(h, j, b, rows, fields[f].name)
    {
      h := [];
      for k := 0 to b.count
        invariant |h| == k
        invariant Resolved(hasher) ==> forall x :: 0 <= x < k ==> ReferenceTally(h[x], j, RowsIn(j, b, rows, x), fields[f].name)
      {
        var t := Bucket(f, k, hasher);
        h := h + [t];
      }
    }
  }

  /** No field is tracked twice. */
  predicate Distinct(fields: seq<Tracked>) {
    forall f, g :: 0 <= f < g < |fields| ==> fields[f].name != fields[g].name
  }

  lemma ReferenceUnset(j: Journal, rows: seq<uint64>, field: bytes, t: Tally, t': Tally)
    requires Positive(t) && forall text :: At(t, text) == RefCount(j, rows, DataFor(j, field, text))
    requires t' == AddSome(t, UNSET, UnsetCount(j, rows, field))
    ensures ReferenceTally(t', j, rows, field)
  {
  }

  ghost predicate RefTallyOf(t: Tally, j: Journal, rows: seq<uint64>, field: bytes, ds: set<uint64>) {
    && Positive(t)
    && forall text :: At(t, text) == if DataFor(j, field, text) in ds then RefCount(j, rows, DataFor(j, field, text)) else 0
  }

  lemma RefTallyStep(t: Tally, j: Journal, hasher: Hasher, rows: seq<uint64>, field: bytes, ds: set<uint64>, d: uint64)
    requires RefTallyOf(t, j, rows, field, ds) && PayloadsUnique(j, hasher) && 0 !in j.data
    requires d in j.data && d !in ds && IsValue(j.data[d].payload, field)
    ensures RefTallyOf(AddSome(t, Label(j.data[d].payload), RefCount(j, rows, d)), j, rows, field, ds + {d})
  {
    HolderOfValue(j, field, d, hasher);
    forall text | DataFor(j, field, text) == d ensures text == Label(j.data[d].payload) {
      LabelOfHolder(j, field, text, d);
    }
  }

  lemma Absent<T>(s: seq<T>, x: T)
    requires x !in s
    ensures multiset(s)[x] == 0
  {
    assert x !in multiset(s);
  }
}
