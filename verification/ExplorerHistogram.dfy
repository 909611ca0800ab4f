/** Histograms: a tally per time bucket (go/journal/explorer.go:1310-1445, 2873-2900). */
module ExplorerHistogram {
  import opened JournalGraph
  import opened StrictSpec
  import opened HashIndex
  import opened ExplorerSpec
  import opened ExplorerIndex

  /** The buckets of a histogram: where they start, how wide they are, how many there are. */
  datatype Buckets = Buckets(start: uint64, width: uint64, count: nat)

  /** The bucket of a time; negative where the quotient does not fit a signed 64-bit integer. */
  function BucketIndex(b: Buckets, realtime: uint64): (index: int)
    ensures index < b.count
  {
    if b.count == 0 then -1
    else if realtime < b.start then 0
    else
      var quotient := (realtime - b.start) / (if b.width == 0 then 1 else b.width);
      var index := if quotient > 0x7FFF_FFFF_FFFF_FFFF then quotient - 0x1_0000_0000_0000_0000 else quotient;
      if index >= b.count then b.count - 1 else index
  }

  function BucketOf(j: Journal, b: Buckets, e: uint64): (index: int)
    ensures index < b.count
  {
    if e in j.entries then BucketIndex(b, j.entries[e].realtime) else -1
  }

  /** The rows of one bucket. */
  ghost function RowsIn(j: Journal, b: Buckets, rows: seq<uint64>, k: int): seq<uint64> {
    if rows == [] then []
    else
      var init, e := RowsIn(j, b, rows[..|rows|-1], k), rows[|rows|-1];
      if BucketOf(j, b, e) == k then init + [e] else init
  }

  lemma {:induction false} RowsInMembers(j: Journal, b: Buckets, rows: seq<uint64>, k: int)
    ensures forall e :: e in RowsIn(j, b, rows, k) <==> e in rows && BucketOf(j, b, e) == k
    ensures Ascending(rows) ==> Ascending(RowsIn(j, b, rows, k))
    decreases |rows|
  {
    if rows != [] {
      var n := |rows| - 1;
      RowsInMembers(j, b, rows[..n], k);
      assert rows == rows[..n] + [rows[n]];
      if Ascending(rows) {
        AscendingInit(rows, n);
        AscendingAppend(RowsIn(j, b, rows[..n], k), rows[n]);
      }
    }
  }

  type Histogram = seq<Tally>

  ghost predicate PostingHistogram(h: Histogram, j: Journal, b: Buckets, rows: seq<uint64>, field: bytes) {
    |h| == b.count && forall k :: 0 <= k < |h| ==> PostingTally(h[k], j, RowsIn(j, b, rows, k), field)
  }

  ghost predicate ReferenceHistogram(h: Histogram, j: Journal, b: Buckets, rows: seq<uint64>, field: bytes) {
    |h| == b.count && forall k :: 0 <= k < |h| ==> ReferenceTally(h[k], j, RowsIn(j, b, rows, k), field)
  }

  /** No row that falls into a bucket repeats a reference to a value of the field. */
  ghost predicate NoRepeatsIn(j: Journal, b: Buckets, rows: seq<uint64>, field: bytes) {
    forall k :: 0 <= k < b.count ==> NoRepeats(j, RowsIn(j, b, rows, k), field)
  }

  lemma HistogramsAgree(s: Histogram, t: Histogram, j: Journal, b: Buckets, rows: seq<uint64>, field: bytes, hasher: Hasher)
    requires PayloadsUnique(j, hasher) && 0 !in j.data && ReferencesResolve(j)
    requires PostingHistogram(s, j, b, rows, field) && ReferenceHistogram(t, j, b, rows, field)
    ensures s == t <==> NoRepeatsIn(j, b, rows, field)
  {
    forall k | 0 <= k < b.count ensures s[k] == t[k] <==> NoRepeats(j, RowsIn(j, b, rows, k), field) {
      TalliesAgree(s[k], t[k], j, RowsIn(j, b, rows, k), field, hasher);
    }
    if NoRepeatsIn(j, b, rows, field) { assert forall k :: 0 <= k < b.count ==> s[k] == t[k]; }
  }

  // ----- counting from postings

  /** The candidate postings that fall into bucket `k`. */
  ghost function Hits(j: Journal, b: Buckets, postings: seq<uint64>, all: bool, candidates: set<uint64>, k: int): set<uint64> {
    set e | e in postings && (all || e in candidates) && BucketOf(j, b, e) == k
  }

  /** Adds one posting to its bucket. */
  function Bump(h: Histogram, k: int, text: bytes): Histogram
    requires k < |h|
  {
    if k < 0 then h else h[k := Add(h[k], text, 1)]
  }

  ghost predicate Bumped(h: Histogram, h': Histogram, j: Journal, b: Buckets, postings: seq<uint64>, all: bool, candidates: set<uint64>, text: bytes) {
    |h'| == |h| && forall k :: 0 <= k < |h| ==> h'[k] == AddSome(h[k], text, |Hits(j, b, postings, all, candidates, k)|)
  }

  lemma HitsStep(j: Journal, b: Buckets, before: seq<uint64>, e: uint64, all: bool, candidates: set<uint64>, k: int)
    requires e !in before
    ensures |Hits(j, b, before + [e], all, candidates, k)| ==
              |Hits(j, b, before, all, candidates, k)| + if (all || e in candidates) && BucketOf(j, b, e) == k then 1 else 0
  {
    var more := if (all || e in candidates) && BucketOf(j, b, e) == k then {e} else {};
    assert Hits(j, b, before + [e], all, candidates, k) == Hits(j, b, before, all, candidates, k) + more;
  }

  lemma AddOnce(t: Tally, text: bytes, n: nat)
    ensures Add(AddSome(t, text, n), text, 1) == AddSome(t, text, n + 1)
  {
  }

  lemma BumpStep(h: Histogram, h1: Histogram, j: Journal, b: Buckets, before: seq<uint64>, e: uint64, all: bool, candidates: set<uint64>, text: bytes)
    requires e !in before && |h| == b.count && Bumped(h, h1, j, b, before, all, candidates, text)
    ensures Bumped(h, if all || e in candidates then Bump(h1, BucketOf(j, b, e), text) else h1, j, b, before + [e], all, candidates, text)
  {
    forall k | 0 <= k < |h| ensures
      (if (all || e in candidates) && BucketOf(j, b, e) == k then Add(h1[k], text, 1) else h1[k])
        == AddSome(h[k], text, |Hits(j, b, before + [e], all, candidates, k)|)
    {
      HitsStep(j, b, before, e, all, candidates, k);
      AddOnce(h[k], text, |Hits(j, b, before, all, candidates, k)|);
    }
  }

  ghost predicate BumpedUpTo(h: Histogram, h': Histogram, j: Journal, b: Buckets, postings: seq<uint64>, i: nat, all: bool, candidates: set<uint64>, text: bytes) {
    i <= |postings| && Bumped(h, h', j, b, postings[..i], all, candidates, text)
  }

  lemma NothingBumped(h: Histogram, j: Journal, b: Buckets, all: bool, candidates: set<uint64>, text: bytes)
    ensures Bumped(h, h, j, b, [], all, candidates, text)
  {
    forall k | 0 <= k < |h| ensures h[k] == AddSome(h[k], text, |Hits(j, b, [], all, candidates, k)|) {
      assert Hits(j, b, [], all, candidates, k) == {};
    }
  }

  lemma BumpedAll(h: Histogram, h': Histogram, j: Journal, b: Buckets, postings: seq<uint64>, all: bool, candidates: set<uint64>, text: bytes)
    ensures BumpedUpTo(h, h', j, b, postings, |postings|, all, candidates, text) ==> Bumped(h, h', j, b, postings, all, candidates, text)
  {
    assert postings[..|postings|] == postings;
  }

  lemma BumpNext(h: Histogram, h1: Histogram, j: Journal, b: Buckets, postings: seq<uint64>, i: nat, all: bool, candidates: set<uint64>, text: bytes)
    requires Ascending(postings) && i < |postings| && |h| == b.count && BumpedUpTo(h, h1, j, b, postings, i, all, candidates, text)
    ensures BumpedUpTo(h, if all || postings[i] in candidates then Bump(h1, BucketOf(j, b, postings[i]), text) else h1, j, b, postings, i + 1, all, candidates, text)
  {
    TakeOneMore(postings, i);
    BumpStep(h, h1, j, b, postings[..i], postings[i], all, candidates, text);
  }

  method BumpOne(h1: Histogram, j: Journal, b: Buckets, postings: seq<uint64>, i: nat, all: bool, candidates: set<uint64>, text: bytes, ghost h: Histogram)
    returns (h2: Histogram)
    requires |h| == |h1| == b.count && i < |postings|
    requires Ascending(postings) ==> BumpedUpTo(h, h1, j, b, postings, i, all, candidates, text)
    ensures |h2| == |h1|
    ensures Ascending(postings) ==> BumpedUpTo(h, h2, j, b, postings, i + 1, all, candidates, text)
  {
    if Ascending(postings) { BumpNext(h, h1, j, b, postings, i, all, candidates, text); }
    h2 := if all || postings[i] in candidates then Bump(h1, BucketOf(j, b, postings[i]), text) else h1;
  }

  /** Adds the postings of one value to their buckets. */
  method BumpPostings(j: Journal, b: Buckets, h: Histogram, postings: seq<uint64>, all: bool, candidates: set<uint64>, text: bytes)
    returns (h': Histogram)
    requires |h| == b.count
    ensures Ascending(postings) ==> Bumped(h, h', j, b, postings, all, candidates, text)
    ensures |h'| == |h|
  {
    h' := h;
    NothingBumped(h, j, b, all, candidates, text);
    assert postings[..0] == [];
    for i := 0 to |postings|
      invariant |h'| == |h|
      invariant Ascending(postings) ==> BumpedUpTo(h, h', j, b, postings, i, all, candidates, text)
    {
      h' := BumpOne(h', j, b, postings, i, all, candidates, text, h);
    }
    BumpedAll(h, h', j, b, postings, all, candidates, text);
  }

  lemma HitsAreRows(j: Journal, b: Buckets, d: uint64, all: bool, rows: seq<uint64>, k: int)
    requires d in j.data && DataListed(j, d) && CandidateRows(j, all, rows)
    ensures Hits(j, b, PostingList(j, d), all, Elements(rows), k) == RowsWith(j, RowsIn(j, b, rows, k), d)
    ensures |RowsWith(j, RowsIn(j, b, rows, k), d)| == RowCount(j, RowsIn(j, b, rows, k), d)
  {
    RowsInMembers(j, b, rows, k);
    RowCountIsSize(j, RowsIn(j, b, rows, k), d);
    forall e | e in PostingList(j, d) ensures Contains(j, e, d) && e in j.entries {}
  }

  ghost predicate HistogramOf(h: Histogram, j: Journal, b: Buckets, rows: seq<uint64>, field: bytes, ds: seq<uint64>) {
    |h| == b.count && forall k :: 0 <= k < |h| ==> TallyOf(h[k], j, RowsIn(j, b, rows, k), field, ds)
  }

  lemma HistogramStep(h: Histogram, h': Histogram, j: Journal, hasher: Hasher, b: Buckets, all: bool, rows: seq<uint64>, field: bytes, ds: seq<uint64>, d: uint64)
    requires HistogramOf(h, j, b, rows, field, ds) && PayloadsUnique(j, hasher) && d in j.data && d !in ds && 0 !in j.data
    requires DataListed(j, d) && CandidateRows(j, all, rows)
    requires if IsValue(j.data[d].payload, field)
             then Bumped(h, h', j, b, PostingList(j, d), all, Elements(rows), Label(j.data[d].payload)) else h' == h
    ensures HistogramOf(h', j, b, rows, field, ds + [d])
  {
    forall k | 0 <= k < |h'| ensures TallyOf(h'[k], j, RowsIn(j, b, rows, k), field, ds + [d]) {
      HitsAreRows(j, b, d, all, rows, k);
      TallyStep(h[k], h'[k], j, hasher, RowsIn(j, b, rows, k), field, ds, d);
    }
  }

  /** Adds the postings of one DATA object to the histogram, if it is a value of the field. */
  method BumpValue(j: Journal, d: uint64, field: bytes, b: Buckets, all: bool, candidates: set<uint64>, h: Histogram, seen: set<uint64>)
    returns (r: Result<(Histogram, set<uint64>)>)
    requires d in j.data && |h| == b.count
    ensures r.Ok? ==> |r.value.0| == |h|
    ensures DataListed(j, d) && 0 !in j.entries ==>
              && r.Ok?
              && if IsValue(j.data[d].payload, field) then
                   && Bumped(h, r.value.0, j, b, PostingList(j, d), all, candidates, Label(j.data[d].payload))
                   && r.value.1 == seen + Found(PostingList(j, d), all, candidates)
                 else r.value == (h, seen)
  {
    var payload := j.data[d].payload;
    ValueTest(payload, field);
    if EQUALS in field || |payload| <= |field| || payload[|field|] != EQUALS || payload[..|field|] != field {
      return Ok((h, seen));
    }
    var p := VisitDataEntries(j, d);
    if p.Err? { return Err(p.error); }
    var _, seen' := CountCandidates(p.value, all, candidates, seen);
    var h' := BumpPostings(j, b, h, p.value, all, candidates, payload[|field| + 1..]);
    return Ok((h', seen'));
  }

  ghost predicate Charted(j: Journal, b: Buckets, rows: seq<uint64>, field: bytes, ds: seq<uint64>, h: Histogram, seen: set<uint64>) {
    HistogramOf(h, j, b, rows, field, ds) && RowsSeen(seen, j, rows, field, ds)
  }

  lemma ChartStep(j: Journal, hasher: Hasher, b: Buckets, field: bytes, all: bool, rows: seq<uint64>, before: seq<uint64>, d: uint64,
                  h: Histogram, seen: set<uint64>, h': Histogram, seen': set<uint64>)
    requires Listed(j, hasher) && CandidateRows(j, all, rows) && d in j.data && d !in before && Charted(j, b, rows, field, before, h, seen)
    requires if IsValue(j.data[d].payload, field) then
               && Bumped(h, h', j, b, PostingList(j, d), all, Elements(rows), Label(j.data[d].payload))
               && seen' == seen + Found(PostingList(j, d), all, Elements(rows))
             else h' == h && seen' == seen
    ensures Charted(j, b, rows, field, before + [d], h', seen')
  {
    PostingsAreRows(j, d, all, rows);
    HistogramStep(h, h', j, hasher, b, all, rows, field, before, d);
    RowsSeenStep(seen, j, rows, field, before, d);
  }

  method ChartValues(j: Journal, hasher: Hasher, field: bytes, b: Buckets, all: bool, candidates: set<uint64>, ds: seq<uint64>,
                     ghost rows: seq<uint64>, ghost good: bool) returns (r: Result<(Histogram, set<uint64>)>)
    requires good ==> Listed(j, hasher) && CandidateRows(j, all, rows) && candidates == Elements(rows)
    requires good ==> Descending(ds) && forall d :: d in ds ==> d in j.data
    ensures r.Ok? ==> |r.value.0| == b.count
    ensures good ==> r.Ok? && Charted(j, b, rows, field, ds, r.value.0, r.value.1)
  {
    var h: Histogram, seen: set<uint64> := seq(b.count, _ => map[]), {};
    for i := 0 to |ds|
      invariant |h| == b.count
      invariant good ==> Charted(j, b, rows, field, ds[..i], h, seen)
    {
      if ds[i] !in j.data { return Err(CorruptObject); }
      var next := BumpValue(j, ds[i], field, b, all, candidates, h, seen);
      if next.Err? { return Err(next.error); }
      if good {
        NextValue(ds, i);
        ChartStep(j, hasher, b, field, all, rows, ds[..i], ds[i], h, seen, next.value.0, next.value.1);
      }
      h, seen := next.value.0, next.value.1;
    }
    assert ds[..|ds|] == ds;
    return Ok((h, seen));
  }

  // ----- rows without the field

  /** The tallies of the values, and of the first rows without the field. */
  ghost predicate UnsetUpTo(h: Histogram, h': Histogram, j: Journal, b: Buckets, rows: seq<uint64>, field: bytes) {
    |h'| == |h| && forall k :: 0 <= k < |h| ==> h'[k] == AddSome(h[k], UNSET, UnsetCount(j, RowsIn(j, b, rows, k), field))
  }

  lemma RowsInAppended(j: Journal, b: Buckets, rows: seq<uint64>, e: uint64, k: int)
    ensures RowsIn(j, b, rows + [e], k) == if BucketOf(j, b, e) == k then RowsIn(j, b, rows, k) + [e] else RowsIn(j, b, rows, k)
  {
    assert (rows + [e])[..|rows|] == rows;
  }

  lemma UnsetAppended(j: Journal, rows: seq<uint64>, e: uint64, field: bytes)
    ensures UnsetCount(j, rows + [e], field) == UnsetCount(j, rows, field) + if HasField(j, e, field) then 0 else 1
  {
    assert (rows + [e])[..|rows|] == rows;
  }

  lemma UnsetCell(j: Journal, b: Buckets, before: seq<uint64>, e: uint64, field: bytes, k: int)
    ensures UnsetCount(j, RowsIn(j, b, before + [e], k), field) ==
              UnsetCount(j, RowsIn(j, b, before, k), field) + if !HasField(j, e, field) && BucketOf(j, b, e) == k then 1 else 0
  {
    RowsInAppended(j, b, before, e, k);
    UnsetAppended(j, RowsIn(j, b, before, k), e, field);
  }

  lemma UnsetStep(h: Histogram, h1: Histogram, j: Journal, b: Buckets, before: seq<uint64>, e: uint64, field: bytes, has: bool)
    requires |h| == b.count && UnsetUpTo(h, h1, j, b, before, field) && has == HasField(j, e, field)
    ensures UnsetUpTo(h, if has then h1 else Bump(h1, BucketOf(j, b, e), UNSET), j, b, before + [e], field)
  {
    var at := BucketOf(j, b, e);
    var h2 := if has then h1 else Bump(h1, at, UNSET);
    forall k | 0 <= k < |h| ensures h2[k] == AddSome(h[k], UNSET, UnsetCount(j, RowsIn(j, b, before + [e], k), field)) {
      UnsetInBucket(h[k], h1[k], h2[k], j, b, before, e, field, has, k);
    }
  }

  lemma UnsetInBucket(t: Tally, t1: Tally, t2: Tally, j: Journal, b: Buckets, before: seq<uint64>, e: uint64, field: bytes, has: bool, k: int)
    requires t1 == AddSome(t, UNSET, UnsetCount(j, RowsIn(j, b, before, k), field)) && has == HasField(j, e, field)
    requires t2 == if has || BucketOf(j, b, e) != k then t1 else Add(t1, UNSET, 1)
    ensures t2 == AddSome(t, UNSET, UnsetCount(j, RowsIn(j, b, before + [e], k), field))
  {
    UnsetCell(j, b, before, e, field, k);
    UnsetOnce(t, t1, UnsetCount(j, RowsIn(j, b, before, k), field), BucketOf(j, b, e) == k, has, t2);
  }

  lemma UnsetOnce(t: Tally, t1: Tally, n: nat, here: bool, has: bool, t2: Tally)
    requires t1 == AddSome(t, UNSET, n) && t2 == if has || !here then t1 else Add(t1, UNSET, 1)
    ensures t2 == AddSome(t, UNSET, n + if has || !here then 0 else 1)
  {
    AddOnce(t, UNSET, n);
  }

  method AddUnset(j: Journal, b: Buckets, h: Histogram, rows: seq<uint64>, seen: set<uint64>, ghost field: bytes) returns (h': Histogram)
    requires |h| == b.count
    ensures |h'| == |h|
    ensures seen == RowsOf(j, rows, field) ==> UnsetUpTo(h, h', j, b, rows, field)
  {
    h' := h;
    for i := 0 to |rows|
      invariant |h'| == |h|
      invariant seen == RowsOf(j, rows, field) ==> UnsetUpTo(h, h', j, b, rows[..i], field)
    {
      TakeOneMore(rows, i);
      if seen == RowsOf(j, rows, field) { UnsetStep(h, h', j, b, rows[..i], rows[i], field, rows[i] in seen); }
      if rows[i] !in seen {
        h' := Bump(h', BucketOf(j, b, rows[i]), UNSET);
      }
    }
    assert rows[..|rows|] == rows;
  }

  /** Counts a histogram from the posting lists of the field's values. */
  method IndexedHistogram(j: Journal, hasher: Hasher, field: bytes, b: Buckets, all: bool, rows: seq<uint64>) returns (r: Result<Histogram>)
    ensures Indexed(j, hasher) && CandidateRows(j, all, rows) ==> r.Ok? && PostingHistogram(r.value, j, b, rows, field)
  {
    ghost var good := Indexed(j, hasher) && CandidateRows(j, all, rows);
    var ds := FieldData(j, hasher, field);
    if ds.Err? { return Err(ds.error); }
    var c := ChartValues(j, hasher, field, b, all, (set e | e in rows), ds.value, rows, good);
    if c.Err? { return Err(c.error); }
    if good { SeenAllRows(j, rows, field, ds.value, c.value.1); }
    var h := AddUnset(j, b, c.value.0, rows, c.value.1, field);
    if good { ChartComplete(j, b, rows, field, ds.value, c.value.0, h); }
    return Ok(h);
  }

  lemma ChartComplete(j: Journal, b: Buckets, rows: seq<uint64>, field: bytes, ds: seq<uint64>, h: Histogram, h': Histogram)
    requires ReferencesResolve(j) && 0 !in j.data && HistogramOf(h, j, b, rows, field, ds) && UnsetUpTo(h, h', j, b, rows, field)
    requires forall d :: d in ds <==> d in j.data && FieldName(j.data[d].payload) == field
    ensures PostingHistogram(h', j, b, rows, field)
  {
    forall k | 0 <= k < |h'| ensures PostingTally(h'[k], j, RowsIn(j, b, rows, k), field) {
      ValuesCounted(j, RowsIn(j, b, rows, k), field, ds, h[k]);
      UnsetAdded(j, RowsIn(j, b, rows, k), field, h[k], h'[k]);
    }
  }
}
