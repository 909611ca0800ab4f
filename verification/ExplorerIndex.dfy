/** Facets and histograms counted from posting lists (go/journal/explorer.go:1094-1130,
    1164-1445, go/journal/reader.go:699-750, go/journal/reader_entry.go:330-360). */
module ExplorerIndex {
  import opened JournalGraph
  import opened EntryArrays
  import opened StrictSpec
  import opened HashIndex
  import opened ExplorerSpec
  import G = ChainGuard

  // ----- FIELD lookup by name

  ghost predicate FieldHashesStored(j: Journal, hasher: Hasher) {
    0 !in j.fields && forall f :: f in j.fields ==> j.fields[f].hash == hasher(j.fields[f].name)
  }

  ghost predicate Names(j: Journal, name: bytes, f: uint64) {
    f in j.fields && j.fields[f].name == name
  }

  ghost predicate NameAhead(j: Journal, name: bytes, head: uint64, offset: uint64) {
    && ChainOk(FieldLinks(j), offset)
    && forall x :: x in Chain(FieldLinks(j), head) && Names(j, name, x) ==> x in Chain(FieldLinks(j), offset)
  }

  lemma NameStep(j: Journal, name: bytes, head: uint64, offset: uint64)
    requires NameAhead(j, name, head, offset) && offset != 0 && offset in j.fields && j.fields[offset].name != name
    ensures NameAhead(j, name, head, j.fields[offset].nextHash)
    ensures j.fields[offset].nextHash == 0 || j.fields[offset].nextHash > offset
  {
    var objs, next := FieldLinks(j), j.fields[offset].nextHash;
    assert Chain(objs, offset) == [offset] + if next > offset then Chain(objs, next) else [];
  }

  method WalkFieldBucket(j: Journal, hash: uint64, name: bytes, head: uint64) returns (r: Result<uint64>)
    ensures r.Ok? && r.value != 0 ==> Names(j, name, r.value)
    ensures ChainOk(FieldLinks(j), head) && (forall f :: Names(j, name, f) ==> j.fields[f].hash == hash && f != 0) ==>
              && r.Ok?
              && (r.value == 0 ==> forall f :: f in Chain(FieldLinks(j), head) ==> !Names(j, name, f))
  {
    ghost var good := ChainOk(FieldLinks(j), head) && (forall f :: Names(j, name, f) ==> j.fields[f].hash == hash && f != 0);
    var guard := new G.ChainGuard();
    var offset: uint64 := head;
    while offset != 0
      invariant good ==> NameAhead(j, name, head, offset) && guard.State() == G.FRESH
      decreases G.Budget(guard.State(), offset, false)
    {
      if offset !in j.fields { return Err(CorruptObject); }
      if j.fields[offset].hash == hash && j.fields[offset].name == name { return Ok(offset); }
      if good {
        assert !Names(j, name, offset);
        NameStep(j, name, head, offset);
      }
      var next := j.fields[offset].nextHash;
      ghost var before := guard.State();
      var accepted := guard.Advance(offset, next, false);
      if !accepted { return Err(CorruptObject); }
      G.BudgetFalls(before, offset, next, false);
      offset := next;
    }
    return Ok(0);
  }

  /** Finds a FIELD object by name; with an indexed table it finds it exactly when it exists. */
  method FindField(j: Journal, hasher: Hasher, name: bytes) returns (r: Result<uint64>)
    ensures r.Ok? && r.value != 0 ==> Names(j, name, r.value)
    ensures HashIndexed(FieldLinks(j), j.fieldTable) && FieldHashesStored(j, hasher) ==>
              r.Ok? && (r.value == 0 <==> forall f :: !Names(j, name, f))
  {
    if |j.fieldTable| == 0 {
      assert HashIndexed(FieldLinks(j), j.fieldTable) ==> FieldLinks(j).Keys == j.fields.Keys == {};
      return Ok(0);
    }
    var hash := hasher(name);
    var head: uint64 := j.fieldTable[hash % |j.fieldTable|].head;
    if HashIndexed(FieldLinks(j), j.fieldTable) && FieldHashesStored(j, hasher) {
      assert BucketOk(FieldLinks(j), j.fieldTable, hash % |j.fieldTable|);
      assert forall f :: Names(j, name, f) ==> f in FieldLinks(j) && FieldLinks(j)[f].hash == hash;
    }
    r := WalkFieldBucket(j, hash, name, head);
  }

  /** Lists every DATA object of a field, each once. */
  method FieldData(j: Journal, hasher: Hasher, field: bytes) returns (r: Result<seq<uint64>>)
    ensures HashIndexed(FieldLinks(j), j.fieldTable) && FieldHashesStored(j, hasher) && FieldIndexed(j) ==>
              && r.Ok? && Descending(r.value)
              && forall d :: d in r.value <==> d in j.data && FieldName(j.data[d].payload) == field
  {
    var f := FindField(j, hasher, field);
    if f.Err? { return Err(f.error); }
    if f.value == 0 {
      if FieldIndexed(j) && (forall f :: !Names(j, field, f)) { NoValues(j, field); }
      return Ok([]);
    }
    r := VisitField(j, f.value);
  }

  lemma NoValues(j: Journal, field: bytes)
    requires FieldIndexed(j) && forall f :: !Names(j, field, f)
    ensures forall d :: d in j.data ==> FieldName(j.data[d].payload) != field
  {
    forall d | d in j.data ensures FieldName(j.data[d].payload) != field {
      var g :| OnChain(j, g, d);
      assert FieldOk(j, g) && !Names(j, field, g);
    }
  }

  // ----- the postings of a DATA object

  /** The slots of one array: a zero slot ends the file, one that names no ENTRY is corrupt. */
  method ReadChunk(j: Journal, slots: seq<uint64>) returns (r: Result<seq<uint64>>)
    ensures AllEntries(j, slots) ==> r == Ok(slots)
  {
    for i := 0 to |slots|
      invariant forall k :: 0 <= k < i ==> slots[k] in j.entries
    {
      if slots[i] == 0 { return Err(TailFailure); }
      if slots[i] !in j.entries { return Err(CorruptObject); }
    }
    return Ok(slots);
  }

  /** What is left of a posting list: `remaining` slots from the array at `offset`. */
  ghost predicate Left(j: Journal, p: seq<uint64>, visited: seq<uint64>, offset: uint64, remaining: nat) {
    && visited + ChainItems(j.arrays, offset, remaining) == p
    && Complete(j.arrays, offset, remaining) && Ascending(ChainArrays(j.arrays, offset, remaining))
  }

  function Used(remaining: nat, capacity: nat): nat {
    if remaining < capacity then remaining else capacity
  }

  ghost predicate AllEntries(j: Journal, slots: seq<uint64>) {
    forall x :: x in slots ==> x != 0 && x in j.entries
  }

  lemma LeftStep(j: Journal, p: seq<uint64>, visited: seq<uint64>, offset: uint64, remaining: nat)
    requires Left(j, p, visited, offset, remaining) && remaining > 0 && AllEntries(j, p)
    ensures offset in j.arrays && offset != 0 && j.arrays[offset].items != []
    ensures var items := j.arrays[offset].items;
            var used := Used(remaining, |items|);
            && AllEntries(j, items[..used])
            && (used < remaining ==>
                  && Left(j, p, visited + items[..used], j.arrays[offset].next, remaining - used)
                  && j.arrays[offset].next > offset && j.arrays[offset].next in j.arrays)
            && (used == remaining ==> visited + items[..used] == p)
  {
    var items := j.arrays[offset].items;
    var used := Used(remaining, |items|);
    assert ChainItems(j.arrays, offset, remaining)[..used] == items[..used];
    forall x | x in items[..used] ensures x in p {
      var k :| 0 <= k < used && items[k] == x;
      assert p[|visited| + k] == ChainItems(j.arrays, offset, remaining)[k];
    }
    if used < remaining {
      var next := j.arrays[offset].next;
      var arrays := ChainArrays(j.arrays, offset, remaining);
      assert arrays == [offset] + ChainArrays(j.arrays, next, remaining - used);
      assert arrays[0] < arrays[1] && arrays[1] == next;
      assert arrays[1..] == ChainArrays(j.arrays, next, remaining - used);
      AscendingTail(arrays);
      assert items[..used] == items;
    }
  }

  /** Visits the entries of a DATA object: the inline one, then its chain of arrays. */
  method VisitDataEntries(j: Journal, d: uint64) returns (r: Result<seq<uint64>>)
    requires d in j.data
    ensures DataListed(j, d) && 0 !in j.entries ==> r == Ok(PostingList(j, d))
  {
    var h := j.data[d];
    ghost var good := DataListed(j, d) && 0 !in j.entries;
    if good { ListStarts(j, d); }
    if (h.entryOffset == 0) != (h.nEntries == 0) { return Err(CorruptObject); }
    if h.nEntries == 0 { return Ok([]); }
    r := VisitChain(j, h.entryOffset, h.entryArrayOffset, h.nEntries - 1, PostingList(j, d), good);
  }

  lemma ListStarts(j: Journal, d: uint64)
    requires d in j.data && DataListed(j, d) && 0 !in j.entries
    ensures j.data[d].nEntries > 0 && j.data[d].entryOffset != 0
    ensures Left(j, PostingList(j, d), [j.data[d].entryOffset], j.data[d].entryArrayOffset, j.data[d].nEntries - 1)
    ensures AllEntries(j, PostingList(j, d))
  {
    assert Shaped(j, Of(d));
    var p := PostingList(j, d);
    assert p[0] == j.data[d].entryOffset && p[0] in p;
  }

  method VisitChain(j: Journal, inline: uint64, head: uint64, count: nat, ghost p: seq<uint64>, ghost good: bool) returns (r: Result<seq<uint64>>)
    requires good ==> Left(j, p, [inline], head, count) && AllEntries(j, p)
    ensures good ==> r == Ok(p)
  {
    var visited := [inline];
    var remaining: nat, offset: uint64, highest: uint64 := count, head, head;
    while offset != 0 && remaining > 0
      invariant good ==> if remaining == 0 then visited == p else Left(j, p, visited, offset, remaining) && highest == offset
      decreases remaining
    {
      if good { LeftStep(j, p, visited, offset, remaining); }
      if offset !in j.arrays || |j.arrays[offset].items| == 0 { return Err(CorruptObject); }
      var items, next := j.arrays[offset].items, j.arrays[offset].next;
      var used := Used(remaining, |items|);
      var chunk := ReadChunk(j, items[..used]);
      if chunk.Err? { return Err(chunk.error); }
      visited := visited + chunk.value;
      remaining := remaining - used;
      if remaining > 0 && next != 0 {
        if next <= highest {
          var revisit := G.RejectArrayRevisit(j.arrays, head, offset, next, []);
          if revisit.Err? { return Err(CorruptObject); }
        } else {
          highest := next;
        }
      }
      offset := next;
    }
    if good && remaining > 0 { LeftStep(j, p, visited, offset, remaining); }
    if remaining != 0 { return Err(CorruptObject); }
    return Ok(visited);
  }

  // ----- facets

  /** A file whose indexes strict verification accepted. */
  ghost predicate Indexed(j: Journal, hasher: Hasher) {
    && Parsed(j) && AllDataListed(j) && ReferencesResolve(j) && PayloadsUnique(j, hasher)
    && HashIndexed(FieldLinks(j), j.fieldTable) && FieldHashesStored(j, hasher) && FieldIndexed(j)
  }

  /** The part of it that counting relies on. */
  ghost predicate Listed(j: Journal, hasher: Hasher) {
    AllDataListed(j) && PayloadsUnique(j, hasher) && 0 !in j.entries && 0 !in j.data
  }

  /** The rows a query is about: all entries, or those that passed its filters, in file order. */
  ghost predicate CandidateRows(j: Journal, all: bool, rows: seq<uint64>) {
    Ascending(rows) && Elements(rows) <= j.entries.Keys && (all ==> Elements(rows) == j.entries.Keys)
  }

  /** The postings among the candidates. */
  ghost function Found(postings: seq<uint64>, all: bool, candidates: set<uint64>): set<uint64> {
    if all then Elements(postings) else Elements(postings) * candidates
  }

  lemma FoundStep(postings: seq<uint64>, i: nat, all: bool, candidates: set<uint64>)
    requires i < |postings|
    ensures Found(postings[..i+1], all, candidates) ==
              Found(postings[..i], all, candidates) + if all || postings[i] in candidates then {postings[i]} else {}
    ensures Ascending(postings) ==> postings[i] !in Found(postings[..i], all, candidates)
  {
    TakeOneMore(postings, i);
    assert Elements(postings[..i+1]) == Elements(postings[..i]) + {postings[i]};
  }

  /** Counts the postings among the candidates. */
  method CountCandidates(postings: seq<uint64>, all: bool, candidates: set<uint64>, seen: set<uint64>)
    returns (count: nat, seen': set<uint64>)
    ensures seen' == seen + Found(postings, all, candidates)
    ensures Ascending(postings) ==> count == |Found(postings, all, candidates)|
  {
    count, seen' := 0, seen;
    for i := 0 to |postings|
      invariant seen' == seen + Found(postings[..i], all, candidates)
      invariant Ascending(postings) ==> count == |Found(postings[..i], all, candidates)|
    {
      FoundStep(postings, i, all, candidates);
      if all || postings[i] in candidates {
        count := count + 1;
        seen' := seen' + {postings[i]};
      }
    }
    assert postings[..|postings|] == postings;
  }

  lemma PostingsAreRows(j: Journal, d: uint64, all: bool, rows: seq<uint64>)
    requires d in j.data && DataListed(j, d) && CandidateRows(j, all, rows)
    ensures Found(PostingList(j, d), all, Elements(rows)) == RowsWith(j, rows, d)
    ensures |RowsWith(j, rows, d)| == RowCount(j, rows, d) && Ascending(PostingList(j, d))
  {
    RowCountIsSize(j, rows, d);
    forall e | e in PostingList(j, d) ensures Contains(j, e, d) && e in j.entries {}
  }

  /** The tally of the values among `ds`. */
  ghost predicate TallyOf(t: Tally, j: Journal, rows: seq<uint64>, field: bytes, ds: seq<uint64>) {
    && Positive(t)
    && forall text :: At(t, text) == if DataFor(j, field, text) in ds then RowCount(j, rows, DataFor(j, field, text)) else 0
  }

  ghost predicate RowsSeen(seen: set<uint64>, j: Journal, rows: seq<uint64>, field: bytes, ds: seq<uint64>) {
    forall e :: e in seen <==> e in rows && exists d :: d in ds && d in j.data && IsValue(j.data[d].payload, field) && Contains(j, e, d)
  }

  lemma TallyStep(t: Tally, t': Tally, j: Journal, hasher: Hasher, rows: seq<uint64>, field: bytes, ds: seq<uint64>, d: uint64)
    requires TallyOf(t, j, rows, field, ds) && PayloadsUnique(j, hasher) && d in j.data && d !in ds
    requires if IsValue(j.data[d].payload, field) && RowCount(j, rows, d) != 0
             then t' == Add(t, Label(j.data[d].payload), RowCount(j, rows, d)) else t' == t
    requires 0 !in j.data
    ensures TallyOf(t', j, rows, field, ds + [d])
  {
    if IsValue(j.data[d].payload, field) {
      HolderOfValue(j, field, d, hasher);
    }
    forall text ensures At(t', text) == if DataFor(j, field, text) in ds + [d] then RowCount(j, rows, DataFor(j, field, text)) else 0 {
      if DataFor(j, field, text) == d { LabelOfHolder(j, field, text, d); }
    }
  }

  lemma LabelOfHolder(j: Journal, field: bytes, text: bytes, d: uint64)
    requires DataFor(j, field, text) == d && d in j.data && 0 !in j.data
    ensures IsValue(j.data[d].payload, field) && Label(j.data[d].payload) == text
  {
    NameOfPayload(field, text);
  }

  /** One DATA object's candidate postings are counted under its label, if it is a value of the field. */
  ghost predicate ValueCounted(j: Journal, d: uint64, field: bytes, all: bool, candidates: set<uint64>, t: Tally, seen: set<uint64>, t': Tally, seen': set<uint64>)
    requires d in j.data
  {
    var found := Found(PostingList(j, d), all, candidates);
    if IsValue(j.data[d].payload, field) then
      t' == (if |found| != 0 then Add(t, Label(j.data[d].payload), |found|) else t) && seen' == seen + found
    else t' == t && seen' == seen
  }

  /** The values of one DATA object, as the facet pass counts them. */
  method CountValue(j: Journal, d: uint64, field: bytes, all: bool, candidates: set<uint64>, t: Tally, seen: set<uint64>)
    returns (r: Result<(Tally, set<uint64>)>)
    requires d in j.data
    ensures DataListed(j, d) && 0 !in j.entries ==>
              r.Ok? && ValueCounted(j, d, field, all, candidates, t, seen, r.value.0, r.value.1)
  {
    var payload := j.data[d].payload;
    ValueTest(payload, field);
    if EQUALS in field || |payload| <= |field| || payload[|field|] != EQUALS || payload[..|field|] != field {
      return Ok((t, seen));
    }
    var p := VisitDataEntries(j, d);
    if p.Err? { return Err(p.error); }
    var count, seen' := CountCandidates(p.value, all, candidates, seen);
    return Ok((if count != 0 then Add(t, payload[|field| + 1..], count) else t, seen'));
  }

  /** The test that the facet pass makes on a payload says that it is a value of the field. */
  lemma {:induction false} ValueTest(payload: bytes, field: bytes)
    ensures IsValue(payload, field) <==>
              EQUALS !in field && |payload| > |field| && payload[|field|] == EQUALS && payload[..|field|] == field
  {
    if EQUALS !in field && |payload| > |field| && payload[|field|] == EQUALS && payload[..|field|] == field {
      NameOfPayload(field, payload[|field| + 1..]);
      assert payload == PayloadOf(field, payload[|field| + 1..]);
    }
  }

  /** How far a facet pass has come: the values among `ds` are counted. */
  ghost predicate Counted(j: Journal, rows: seq<uint64>, field: bytes, ds: seq<uint64>, t: Tally, seen: set<uint64>) {
    TallyOf(t, j, rows, field, ds) && RowsSeen(seen, j, rows, field, ds)
  }

  lemma RowsSeenStep(seen: set<uint64>, j: Journal, rows: seq<uint64>, field: bytes, ds: seq<uint64>, d: uint64)
    requires RowsSeen(seen, j, rows, field, ds) && d in j.data
    ensures RowsSeen(if IsValue(j.data[d].payload, field) then seen + RowsWith(j, rows, d) else seen, j, rows, field, ds + [d])
  {
    var seen' := if IsValue(j.data[d].payload, field) then seen + RowsWith(j, rows, d) else seen;
    forall e ensures e in seen' <==> e in rows && exists x :: x in ds + [d] && x in j.data && IsValue(j.data[x].payload, field) && Contains(j, e, x) {
      if e in seen && e in rows {
        var x :| x in ds && x in j.data && IsValue(j.data[x].payload, field) && Contains(j, e, x);
        assert x in ds + [d];
      }
      if e in seen' && e !in seen { assert d in ds + [d]; }
    }
  }

  lemma NextValue(ds: seq<uint64>, i: nat)
    requires Descending(ds) && i < |ds|
    ensures ds[..i+1] == ds[..i] + [ds[i]] && ds[i] !in ds[..i]
  {
  }

  method CountField(j: Journal, hasher: Hasher, field: bytes, all: bool, candidates: set<uint64>, ds: seq<uint64>, ghost rows: seq<uint64>, ghost good: bool)
    returns (r: Result<(Tally, set<uint64>)>)
    requires good ==> Listed(j, hasher) && CandidateRows(j, all, rows) && candidates == Elements(rows)
    requires good ==> Descending(ds) && forall d :: d in ds ==> d in j.data
    ensures good ==> r.Ok? && Counted(j, rows, field, ds, r.value.0, r.value.1)
  {
    var t: Tally, seen: set<uint64> := map[], {};
    for i := 0 to |ds|
      invariant good ==> Counted(j, rows, field, ds[..i], t, seen)
    {
      if ds[i] !in j.data { return Err(CorruptObject); }
      var next := CountValue(j, ds[i], field, all, candidates, t, seen);
      if next.Err? { return Err(next.error); }
      if good {
        NextValue(ds, i);
        CountStep(j, hasher, field, all, rows, ds[..i], ds[i], t, seen, next.value.0, next.value.1);
      }
      t, seen := next.value.0, next.value.1;
    }
    assert ds[..|ds|] == ds;
    return Ok((t, seen));
  }

  lemma CountStep(j: Journal, hasher: Hasher, field: bytes, all: bool, rows: seq<uint64>, before: seq<uint64>, d: uint64,
                  t: Tally, seen: set<uint64>, t': Tally, seen': set<uint64>)
    requires Listed(j, hasher) && CandidateRows(j, all, rows) && d in j.data && d !in before
    requires Counted(j, rows, field, before, t, seen)
    requires ValueCounted(j, d, field, all, Elements(rows), t, seen, t', seen')
    ensures Counted(j, rows, field, before + [d], t', seen')
  {
    PostingsAreRows(j, d, all, rows);
    TallyStep(t, t', j, hasher, rows, field, before, d);
    RowsSeenStep(seen, j, rows, field, before, d);
  }

  /** Counts one facet from the posting lists of its values. */
  method IndexedFacet(j: Journal, hasher: Hasher, field: bytes, all: bool, rows: seq<uint64>) returns (r: Result<Tally>)
    ensures Indexed(j, hasher) && CandidateRows(j, all, rows) ==> r.Ok? && PostingTally(r.value, j, rows, field)
  {
    ghost var good := Indexed(j, hasher) && CandidateRows(j, all, rows);
    var c := CountPostings(j, hasher, field, all, rows, good);
    if c.Err? { return Err(c.error); }
    var t, seen := c.value.0, c.value.1;
    var unset := if |rows| > |seen| then |rows| - |seen| else 0;
    if good { UnsetAdded(j, rows, field, t, AddSome(t, UNSET, unset)); }
    return Ok(AddSome(t, UNSET, unset));
  }

  /** Every value of the field is counted, and the rows that have the field were seen. */
  ghost predicate FullyCounted(j: Journal, rows: seq<uint64>, field: bytes, t: Tally, seen: set<uint64>) {
    && UnsetCount(j, rows, field) == |rows| - |seen| && Positive(t)
    && forall text :: At(t, text) == RowCount(j, rows, DataFor(j, field, text))
  }

  method CountPostings(j: Journal, hasher: Hasher, field: bytes, all: bool, rows: seq<uint64>, ghost good: bool)
    returns (r: Result<(Tally, set<uint64>)>)
    requires good ==> Indexed(j, hasher) && CandidateRows(j, all, rows)
    ensures good ==> r.Ok? && FullyCounted(j, rows, field, r.value.0, r.value.1)
  {
    var ds := FieldData(j, hasher, field);
    if ds.Err? { return Err(ds.error); }
    r := CountField(j, hasher, field, all, (set e | e in rows), ds.value, rows, good);
    if good { AllCounted(j, hasher, rows, field, ds.value, r.value.0, r.value.1); }
  }

  /** With every value counted, only the rows without the field are missing. */
  lemma AllCounted(j: Journal, hasher: Hasher, rows: seq<uint64>, field: bytes, ds: seq<uint64>, t: Tally, seen: set<uint64>)
    requires Indexed(j, hasher) && Ascending(rows) && Counted(j, rows, field, ds, t, seen)
    requires forall d :: d in ds <==> d in j.data && FieldName(j.data[d].payload) == field
    ensures FullyCounted(j, rows, field, t, seen)
  {
    UnsetIsRest(j, rows, field);
    SeenAllRows(j, rows, field, ds, seen);
    ValuesCounted(j, rows, field, ds, t);
  }

  lemma ValuesCounted(j: Journal, rows: seq<uint64>, field: bytes, ds: seq<uint64>, t: Tally)
    requires TallyOf(t, j, rows, field, ds) && ReferencesResolve(j) && 0 !in j.data
    requires forall d :: d in ds <==> d in j.data && FieldName(j.data[d].payload) == field
    ensures forall text :: At(t, text) == RowCount(j, rows, DataFor(j, field, text))
  {
    forall text ensures At(t, text) == RowCount(j, rows, DataFor(j, field, text)) {
      var d := DataFor(j, field, text);
      if d in j.data {
        LabelOfHolder(j, field, text, d);
      } else {
        NeverContained(j, rows, d);
      }
    }
  }

  lemma SeenAllRows(j: Journal, rows: seq<uint64>, field: bytes, ds: seq<uint64>, seen: set<uint64>)
    requires RowsSeen(seen, j, rows, field, ds)
    requires forall d :: d in ds <==> d in j.data && FieldName(j.data[d].payload) == field
    ensures seen == RowsOf(j, rows, field)
  {
    forall e ensures e in seen <==> e in RowsOf(j, rows, field) {
      if e in rows && HasField(j, e, field) {
        var d :| Contains(j, e, d) && d in j.data && IsValue(j.data[d].payload, field);
        assert d in ds;
      }
    }
  }

  lemma {:induction false} NeverContained(j: Journal, rows: seq<uint64>, d: uint64)
    requires ReferencesResolve(j) && d !in j.data
    ensures RowCount(j, rows, d) == 0 && RefCount(j, rows, d) == 0
    decreases |rows|
  {
    if rows != [] {
      var e := rows[|rows|-1];
      NeverContained(j, rows[..|rows|-1], d);
      assert !Contains(j, e, d);
      assert d !in multiset(Items(j, e));
    }
  }
}
