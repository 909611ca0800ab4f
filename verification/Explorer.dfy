/** One query answered twice, from the posting lists and row by row
    (go/journal/explorer.go:751-1092, 1850-1974, 2709-2735). */
module Explorer {
  import opened JournalGraph
  import opened StrictSpec
  import opened HashIndex
  import opened FilterStep
  import opened ExplorerSpec
  import opened ExplorerIndex
  import opened ExplorerHistogram
  import opened ExplorerScan
  import M = FilterMeaning
  import C = OffsetCache
  import V = VerifyIndex

  datatype Filter = Filter(field: bytes, values: seq<bytes>)

  /** Rows that match every filter with values, within a range of times. */
  datatype Query = Query(filters: seq<Filter>, after: Option<uint64>, before: Option<uint64>, slack: uint64)

  // ----- what a query selects

  ghost predicate MatchesFilter(j: Journal, e: uint64, f: Filter) {
    exists i :: 0 <= i < |f.values| && M.Has(j, e, PayloadOf(f.field, f.values[i]))
  }

  ghost predicate MatchesAll(j: Journal, e: uint64, filters: seq<Filter>) {
    forall i :: 0 <= i < |filters| ==> filters[i].values == [] || MatchesFilter(j, e, filters[i])
  }

  predicate InRange(q: Query, realtime: uint64) {
    (q.after.None? || realtime >= q.after.value) && (q.before.None? || realtime <= q.before.value)
  }

  ghost predicate Selected(j: Journal, q: Query, e: uint64) {
    e in j.entries && MatchesAll(j, e, q.filters) && InRange(q, j.entries[e].realtime)
  }

  /** The rows that a query selects, in order. */
  ghost function Selection(j: Journal, q: Query, rows: seq<uint64>): seq<uint64> {
    if rows == [] then []
    else
      var init, e := Selection(j, q, rows[..|rows|-1]), rows[|rows|-1];
      if Selected(j, q, e) then init + [e] else init
  }

  lemma SelectionAppended(j: Journal, q: Query, rows: seq<uint64>, e: uint64)
    ensures Selection(j, q, rows + [e]) == Selection(j, q, rows) + if Selected(j, q, e) then [e] else []
  {
    assert (rows + [e])[..|rows|] == rows;
  }

  lemma {:induction false} SelectionMembers(j: Journal, q: Query, rows: seq<uint64>)
    ensures forall e :: e in Selection(j, q, rows) <==> e in rows && Selected(j, q, e)
    ensures Ascending(rows) ==> Ascending(Selection(j, q, rows))
    decreases |rows|
  {
    if rows != [] {
      var n := |rows| - 1;
      SelectionMembers(j, q, rows[..n]);
      assert rows == rows[..n] + [rows[n]];
      if Ascending(rows) {
        AscendingInit(rows, n);
        AscendingAppend(Selection(j, q, rows[..n]), rows[n]);
      }
    }
  }

  // ----- candidates from posting lists

  /** The entries that hold a payload. */
  method PayloadEntries(j: Journal, hasher: Hasher, payload: bytes) returns (r: Result<set<uint64>>)
    ensures Searchable(j, hasher) ==> r.Ok? && forall e :: e in r.value <==> M.Has(j, e, payload)
  {
    var d := FindData(j, hasher, payload);
    if d.Err? { return Err(d.error); }
    if d.value == 0 { return Ok({}); }
    if d.value !in j.data { return Err(CorruptObject); }
    var p := VisitDataEntries(j, d.value);
    if p.Err? { return Err(p.error); }
    if Searchable(j, hasher) { HoldersEntries(j, hasher, payload, d.value); }
    return Ok(set e | e in p.value);
  }

  /** A file whose DATA objects can be found and whose postings are sound. */
  ghost predicate Searchable(j: Journal, hasher: Hasher) {
    Listed(j, hasher) && HashIndexed(DataLinks(j), j.dataTable)
  }

  lemma HoldersEntries(j: Journal, hasher: Hasher, payload: bytes, d: uint64)
    requires Searchable(j, hasher) && Holds(j, payload, d)
    ensures forall e :: e in PostingList(j, d) <==> M.Has(j, e, payload)
  {
    assert DataListed(j, d);
    forall e ensures e in PostingList(j, d) <==> M.Has(j, e, payload) {
      if M.Has(j, e, payload) {
        var x :| Contains(j, e, x) && Holds(j, payload, x);
        assert x == d;
      }
    }
  }

  /** The entries that match one filter. */
  method FilterEntries(j: Journal, hasher: Hasher, f: Filter) returns (r: Result<set<uint64>>)
    ensures Searchable(j, hasher) ==> r.Ok? && forall e :: e in r.value <==> MatchesFilter(j, e, f)
  {
    var found: set<uint64> := {};
    for i := 0 to |f.values|
      invariant Searchable(j, hasher) ==> forall e :: e in found <==> exists k :: 0 <= k < i && M.Has(j, e, PayloadOf(f.field, f.values[k]))
    {
      var more := PayloadEntries(j, hasher, PayloadOf(f.field, f.values[i]));
      if more.Err? { return Err(more.error); }
      found := found + more.value;
    }
    return Ok(found);
  }

  /** The entries that match every filter with values; none of them means no restriction. */
  method FiltersEntries(j: Journal, hasher: Hasher, filters: seq<Filter>) returns (r: Result<Option<set<uint64>>>)
    ensures Searchable(j, hasher) ==> r.Ok? && Restricts(j, r.value, filters)
  {
    var current: Option<set<uint64>> := None;
    for i := 0 to |filters|
      invariant Searchable(j, hasher) ==> Restricts(j, current, filters[..i])
    {
      if filters[i].values == [] {
        if Searchable(j, hasher) { Unrestricted(j, current, filters, i); }
      } else {
        var more := FilterEntries(j, hasher, filters[i]);
        if more.Err? { return Err(more.error); }
        var next := if current.None? then more.value else current.value * more.value;
        if Searchable(j, hasher) { Restricted(j, current, filters, i, more.value, next); }
        current := Some(next);
        if next == {} {
          if Searchable(j, hasher) { NoneMatch(j, filters, i + 1); }
          return Ok(current);
        }
      }
    }
    assert filters[..|filters|] == filters;
    return Ok(current);
  }

  /** The entries a list of filters leaves; `None` when it leaves all. */
  ghost predicate Restricts(j: Journal, current: Option<set<uint64>>, filters: seq<Filter>) {
    forall e: uint64 {:trigger Leaves(j, current, filters, e)} :: Leaves(j, current, filters, e)
  }

  ghost predicate Leaves(j: Journal, current: Option<set<uint64>>, filters: seq<Filter>, e: uint64) {
    MatchesAll(j, e, filters) <==> current.None? || e in current.value
  }

  lemma OneMoreFilter(j: Journal, e: uint64, filters: seq<Filter>, i: nat)
    requires i < |filters|
    ensures MatchesAll(j, e, filters[..i+1]) <==> MatchesAll(j, e, filters[..i]) && (filters[i].values == [] || MatchesFilter(j, e, filters[i]))
  {
    var more, less := filters[..i+1], filters[..i];
    assert more[i] == filters[i] && forall k :: 0 <= k < i ==> more[k] == less[k];
  }

  lemma Unrestricted(j: Journal, current: Option<set<uint64>>, filters: seq<Filter>, i: nat)
    requires i < |filters| && filters[i].values == [] && Restricts(j, current, filters[..i])
    ensures Restricts(j, current, filters[..i+1])
  {
    var more := filters[..i+1];
    forall e: uint64 ensures Leaves(j, current, more, e) {
      OneMoreFilter(j, e, filters, i);
      assert Leaves(j, current, filters[..i], e);
    }
  }

  lemma Restricted(j: Journal, current: Option<set<uint64>>, filters: seq<Filter>, i: nat, more: set<uint64>, next: set<uint64>)
    requires i < |filters| && filters[i].values != [] && Restricts(j, current, filters[..i])
    requires forall e :: e in more <==> MatchesFilter(j, e, filters[i])
    requires next == if current.None? then more else current.value * more
    ensures Restricts(j, Some(next), filters[..i+1])
  {
    var longer := filters[..i+1];
    forall e: uint64 ensures Leaves(j, Some(next), longer, e) {
      OneMoreFilter(j, e, filters, i);
      assert Leaves(j, current, filters[..i], e);
    }
  }

  lemma NoneMatch(j: Journal, filters: seq<Filter>, n: nat)
    requires n <= |filters| && Restricts(j, Some({}), filters[..n])
    ensures Restricts(j, Some({}), filters)
  {
    forall e: uint64 ensures Leaves(j, Some({}), filters, e) {
      assert Leaves(j, Some({}), filters[..n], e);
      if MatchesAll(j, e, filters) { PrefixMatches(j, e, filters, n); }
    }
  }

  lemma PrefixMatches(j: Journal, e: uint64, filters: seq<Filter>, n: nat)
    requires n <= |filters| && MatchesAll(j, e, filters)
    ensures MatchesAll(j, e, filters[..n])
  {
    assert forall k :: 0 <= k < n ==> filters[..n][k] == filters[k];
  }

  /** The candidate rows of a query, from its filters and, if asked, its range of times. */
  method Candidates(j: Journal, hasher: Hasher, q: Query, timed: bool, rows: seq<uint64>) returns (r: Result<(bool, seq<uint64>)>)
    ensures Searchable(j, hasher) && (forall e :: e in rows ==> e in j.entries) ==>
              && r.Ok? && r.value.1 == Selection(j, if timed then q else q.(after := None, before := None), rows)
              && (r.value.0 ==> r.value.1 == rows)
  {
    ghost var good := Searchable(j, hasher) && (forall e :: e in rows ==> e in j.entries);
    ghost var sel := if timed then q else q.(after := None, before := None);
    var current := FiltersEntries(j, hasher, q.filters);
    if current.Err? { return Err(current.error); }
    var checkTime := timed && (q.after.Some? || q.before.Some?);
    var out: seq<uint64> := [];
    for i := 0 to |rows|
      invariant good ==> out == Selection(j, sel, rows[..i])
      invariant good && current.value.None? && !checkTime ==> out == rows[..i]
    {
      TakeOneMore(rows, i);
      SelectionAppended(j, sel, rows[..i], rows[i]);
      if good { assert rows[i] in rows && Leaves(j, current.value, q.filters, rows[i]); }
      if current.value.None? || rows[i] in current.value.value {
        if rows[i] !in j.entries { return Err(CorruptObject); }
        if !checkTime || InRange(q, j.entries[rows[i]].realtime) {
          out := out + [rows[i]];
        }
      }
    }
    assert rows[..|rows|] == rows;
    return Ok((current.value.None? && !checkTime, out));
  }

  // ----- the row-by-row pass

  function SaturatingAdd(a: uint64, b: uint64): uint64 {
    if a + b > MAX_U64 then 0xFFFF_FFFF_FFFF_FFFF else a + b
  }

  predicate PastRange(q: Query, realtime: uint64) {
    q.before.Some? && realtime > SaturatingAdd(q.before.value, q.slack)
  }

  predicate BeforeRange(q: Query, realtime: uint64) {
    q.after.Some? && realtime < q.after.value
  }

  /** Rows past the range are not selected, and neither is any later row. */
  lemma {:induction false} NothingSelectedAfter(j: Journal, q: Query, rows: seq<uint64>, i: nat, n: nat)
    requires TimesAscend(j, rows) && i < |rows| && i <= n <= |rows| && PastRange(q, j.entries[rows[i]].realtime)
    ensures Selection(j, q, rows[..n]) == Selection(j, q, rows[..i])
    decreases n
  {
    if n > i {
      NothingSelectedAfter(j, q, rows, i, n - 1);
      TakeOneMore(rows, n - 1);
      SelectionAppended(j, q, rows[..n-1], rows[n-1]);
      assert j.entries[rows[i]].realtime <= j.entries[rows[n-1]].realtime;
    }
  }

  /** The rows that match the filters, of which the range selects some. */
  ghost predicate Matching(j: Journal, q: Query, rows: seq<uint64>) {
    forall i :: 0 <= i < |rows| ==> rows[i] in j.entries && MatchesAll(j, rows[i], q.filters)
  }

  /** Scans one row and counts it if it is in range. */
  method VisitRow(acc: Accumulator, q: Query, e: uint64) returns (taken: bool)
    requires acc.Valid() && e in acc.j.entries && ReferencesResolve(acc.j) && MatchesAll(acc.j, e, q.filters)
    modifies acc, acc.table, acc.table.slots
    ensures acc.Valid() && (acc.table.slots == old(acc.table.slots) || fresh(acc.table.slots))
    ensures taken == Selected(acc.j, q, e) && acc.rows == old(acc.rows) + if taken then [e] else []
  {
    var realtime := acc.j.entries[e].realtime;
    if BeforeRange(q, realtime) { return false; }
    assert forall d :: d in Items(acc.j, e) ==> Contains(acc.j, e, d);
    var deferred := acc.ScanRow(e);
    if !InRange(q, realtime) { return false; }
    acc.AcceptRow(e, deferred.value);
    return true;
  }

  /** The query looks at times. */
  predicate Timed(q: Query) {
    q.after.Some? || q.before.Some?
  }

  ghost predicate InOrder(j: Journal, q: Query, rows: seq<uint64>) {
    Timed(q) ==> TimesAscend(j, rows)
  }

  /** Where a pass begins: over all rows, at the first one that may be in range. */
  method SeekStart(j: Journal, q: Query, all: bool, rows: seq<uint64>) returns (start: nat)
    requires InOrder(j, q, rows)
    ensures start <= |rows| && Selection(j, q, rows[..start]) == []
  {
    start := 0;
    if all && q.after.Some? {
      var usec: uint64 := if q.after.value < q.slack then 0 else q.after.value - q.slack;
      var index := FilterRealtimeIndex(j, rows, usec, false);
      start := index.value;
      SkippedBefore(j, rows, usec, 0);
      NothingSelectedBefore(j, q, rows, start);
    }
  }

  /** Every row that the search skips is earlier than the time sought. */
  lemma {:induction false} SkippedBefore(j: Journal, rows: seq<uint64>, usec: uint64, i: nat)
    ensures i <= TimeIndex(j, rows, usec, false, i) || i > |rows|
    ensures forall k :: i <= k < TimeIndex(j, rows, usec, false, i) && k < |rows| ==> rows[k] in j.entries && j.entries[rows[k]].realtime < usec
    decreases |rows| - i
  {
    if i < |rows| { SkippedBefore(j, rows, usec, i + 1); }
  }

  lemma {:induction false} NothingSelectedBefore(j: Journal, q: Query, rows: seq<uint64>, n: nat)
    requires n <= |rows| && q.after.Some?
    requires forall k :: 0 <= k < n ==> rows[k] in j.entries && j.entries[rows[k]].realtime < q.after.value
    ensures Selection(j, q, rows[..n]) == []
    decreases n
  {
    if n > 0 {
      NothingSelectedBefore(j, q, rows, n - 1);
      TakeOneMore(rows, n - 1);
      SelectionAppended(j, q, rows[..n-1], rows[n-1]);
    }
  }

  /** The first rows of a selection. */
  function Firsts(rows: seq<uint64>, limit: nat): seq<uint64> {
    if |rows| <= limit then rows else rows[..limit]
  }

  function Taken(taken: seq<uint64>, e: uint64, limit: nat): seq<uint64> {
    if |taken| < limit then taken + [e] else taken
  }

  lemma FirstsAppended(rows: seq<uint64>, e: uint64, limit: nat)
    ensures Firsts(rows + [e], limit) == Taken(Firsts(rows, limit), e, limit)
  {
  }

  /** One more row makes at most one more result. */
  lemma FirstsNext(j: Journal, q: Query, rows: seq<uint64>, i: nat, limit: nat)
    requires i < |rows|
    ensures Firsts(Selection(j, q, rows[..i+1]), limit) ==
              var before := Firsts(Selection(j, q, rows[..i]), limit);
              if Selected(j, q, rows[i]) then Taken(before, rows[i], limit) else before
  {
    TakeOneMore(rows, i);
    SelectionAppended(j, q, rows[..i], rows[i]);
    FirstsAppended(Selection(j, q, rows[..i]), rows[i], limit);
  }

  lemma PastTheRange(j: Journal, q: Query, rows: seq<uint64>, i: nat)
    requires TimesAscend(j, rows) && i < |rows| && PastRange(q, j.entries[rows[i]].realtime)
    ensures Selection(j, q, rows) == Selection(j, q, rows[..i])
  {
    NothingSelectedAfter(j, q, rows, i, |rows|);
    assert rows[..|rows|] == rows;
  }

  /** Scans one more candidate row. */
  method ScanOneRow(acc: Accumulator, q: Query, rows: seq<uint64>, i: nat, limit: nat, before: seq<uint64>) returns (taken: seq<uint64>)
    requires i < |rows| && acc.Valid() && acc.rows == Selection(acc.j, q, rows[..i]) && before == Firsts(acc.rows, limit)
    requires rows[i] in acc.j.entries && ReferencesResolve(acc.j) && MatchesAll(acc.j, rows[i], q.filters)
    modifies acc, acc.table, acc.table.slots
    ensures acc.Valid() && (acc.table.slots == old(acc.table.slots) || fresh(acc.table.slots))
    ensures acc.rows == Selection(acc.j, q, rows[..i+1]) && taken == Firsts(acc.rows, limit)
  {
    TakeOneMore(rows, i);
    SelectionAppended(acc.j, q, rows[..i], rows[i]);
    FirstsAppended(acc.rows, rows[i], limit);
    var accepted := VisitRow(acc, q, rows[i]);
    taken := if accepted then Taken(before, rows[i], limit) else before;
  }

  /** Accumulates the candidate rows in order, from the first that may be in range to the first past
      the range, and takes the first few as results. */
  method ScanRows(acc: Accumulator, q: Query, all: bool, rows: seq<uint64>, limit: nat) returns (taken: seq<uint64>)
    requires acc.Valid() && acc.rows == [] && ReferencesResolve(acc.j) && Matching(acc.j, q, rows) && InOrder(acc.j, q, rows)
    modifies acc, acc.table, acc.table.slots
    ensures acc.Valid() && acc.rows == Selection(acc.j, q, rows) && taken == Firsts(acc.rows, limit)
  {
    var i := SeekStart(acc.j, q, all, rows);
    taken := [];
    while i < |rows|
      invariant i <= |rows| && acc.Valid() && acc.rows == Selection(acc.j, q, rows[..i]) && taken == Firsts(acc.rows, limit)
      invariant acc.table.slots == old(acc.table.slots) || fresh(acc.table.slots)
    {
      if PastRange(q, acc.j.entries[rows[i]].realtime) {
        PastTheRange(acc.j, q, rows, i);
        return;
      }
      taken := ScanOneRow(acc, q, rows, i, limit, taken);
      i := i + 1;
    }
    assert rows[..|rows|] == rows;
  }

  /** The same pass when nothing is counted: rows are not even scanned. */
  method TakeRows(j: Journal, q: Query, all: bool, rows: seq<uint64>, limit: nat) returns (taken: seq<uint64>)
    requires Matching(j, q, rows) && InOrder(j, q, rows)
    ensures taken == Firsts(Selection(j, q, rows), limit)
  {
    var i := SeekStart(j, q, all, rows);
    taken := [];
    while i < |rows|
      invariant i <= |rows| && taken == Firsts(Selection(j, q, rows[..i]), limit)
    {
      var realtime := j.entries[rows[i]].realtime;
      if PastRange(q, realtime) {
        PastTheRange(j, q, rows, i);
        return;
      }
      FirstsNext(j, q, rows, i, limit);
      if !BeforeRange(q, realtime) && InRange(q, realtime) { taken := Taken(taken, rows[i], limit); }
      i := i + 1;
    }
    assert rows[..|rows|] == rows;
  }

  /** Selecting by the whole query after selecting by its filters changes nothing. */
  lemma {:induction false} SelectTwice(j: Journal, q: Query, q0: Query, rows: seq<uint64>)
    requires q0 == q || q0 == q.(after := None, before := None)
    ensures Selection(j, q, Selection(j, q0, rows)) == Selection(j, q, rows)
    decreases |rows|
  {
    if rows != [] {
      var n := |rows| - 1;
      SelectTwice(j, q, q0, rows[..n]);
      if Selected(j, q0, rows[n]) {
        SelectionAppended(j, q, Selection(j, q0, rows[..n]), rows[n]);
      }
    }
  }

  lemma {:induction false} SelectionKeepsTimes(j: Journal, q: Query, rows: seq<uint64>)
    requires TimesAscend(j, rows)
    ensures TimesAscend(j, Selection(j, q, rows))
    ensures forall e :: e in Selection(j, q, rows) ==> e in rows
    decreases |rows|
  {
    if rows != [] {
      var n := |rows| - 1;
      assert TimesAscend(j, rows[..n]);
      SelectionKeepsTimes(j, q, rows[..n]);
      var s := Selection(j, q, rows[..n]);
      forall i | 0 <= i < |s| ensures j.entries[s[i]].realtime <= j.entries[rows[n]].realtime {
        assert s[i] in rows[..n];
      }
    }
  }

  // ----- requests

  /** A query with what to report about it: tallies of some fields, the histogram of one, and the
      first rows. A facet may ignore the filters on its own field. */
  datatype Request = Request(query: Query, facets: seq<bytes>, histogram: Option<bytes>, excludeOwn: bool, limit: nat)

  datatype Report = Report(facets: map<bytes, Tally>, histogram: Option<Histogram>, rows: seq<uint64>)

  predicate UsableField(field: bytes) {
    field != [] && EQUALS !in field
  }

  predicate NoDuplicates(facets: seq<bytes>) {
    forall i, k :: 0 <= i < k < |facets| ==> facets[i] != facets[k]
  }

  /** What the explorer does not refuse. */
  predicate ValidRequest(req: Request) {
    && (req.query.after.Some? && req.query.before.Some? ==> req.query.after.value <= req.query.before.value)
    && (forall f <- req.query.filters :: UsableField(f.field))
    && (forall f <- req.facets :: UsableField(f))
    && (req.histogram.Some? ==> UsableField(req.histogram.value))
    && NoDuplicates(req.facets)
  }

  /** The filters that are not on a field. */
  function Without(filters: seq<Filter>, field: bytes): seq<Filter> {
    if filters == [] then []
    else
      var init, f := Without(filters[..|filters|-1], field), filters[|filters|-1];
      if f.field == field then init else init + [f]
  }

  /** The query without the filters on an excluded field. */
  function Narrow(q: Query, excluded: Option<bytes>): Query {
    if excluded.None? then q else q.(filters := Without(q.filters, excluded.value))
  }

  predicate Filtered(filters: seq<Filter>, field: bytes) {
    exists i :: 0 <= i < |filters| && filters[i].field == field
  }

  function ExcludedFor(req: Request, facet: bytes): Option<bytes> {
    if req.excludeOwn && Filtered(req.query.filters, facet) then Some(facet) else None
  }

  /** The rows a facet is about, by the narrowed query. */
  ghost function FacetRows(j: Journal, req: Request, rows: seq<uint64>, facet: bytes): seq<uint64> {
    Selection(j, Narrow(req.query, ExcludedFor(req, facet)), rows)
  }

  // ----- what a request asks for

  /** The entry lies in the queried range, both ends included, and holds one of the values of every
      filter that has values, except filters on the field `but`. */
  ghost predicate AskedFor(j: Journal, q: Query, but: Option<bytes>, e: uint64) {
    && e in j.entries
    && (q.after.Some? ==> q.after.value <= j.entries[e].realtime)
    && (q.before.Some? ==> j.entries[e].realtime <= q.before.value)
    && forall i :: 0 <= i < |q.filters| && q.filters[i].values != [] && but != Some(q.filters[i].field) ==> MatchesFilter(j, e, q.filters[i])
  }

  ghost function RowsFor(j: Journal, q: Query, but: Option<bytes>, rows: seq<uint64>): seq<uint64> {
    if rows == [] then []
    else RowsFor(j, q, but, rows[..|rows|-1]) + if AskedFor(j, q, but, rows[|rows|-1]) then [rows[|rows|-1]] else []
  }

  /** The field whose filters a facet ignores. */
  ghost function Ignored(req: Request, facet: bytes): Option<bytes> {
    if req.excludeOwn then Some(facet) else None
  }

  lemma {:induction false} WithoutMeans(j: Journal, e: uint64, filters: seq<Filter>, field: bytes)
    ensures MatchesAll(j, e, Without(filters, field)) <==>
              forall i :: 0 <= i < |filters| && filters[i].values != [] && filters[i].field != field ==> MatchesFilter(j, e, filters[i])
    decreases |filters|
  {
    if filters != [] {
      var n := |filters| - 1;
      WithoutMeans(j, e, filters[..n], field);
      assert filters == filters[..n] + [filters[n]];
      if filters[n].field != field { MatchesOneMore(j, e, Without(filters[..n], field), filters[n]); }
    }
  }

  lemma MatchesOneMore(j: Journal, e: uint64, filters: seq<Filter>, f: Filter)
    ensures MatchesAll(j, e, filters + [f]) <==> MatchesAll(j, e, filters) && (f.values == [] || MatchesFilter(j, e, f))
  {
    var more := filters + [f];
    assert more[|filters|] == f && forall i :: 0 <= i < |filters| ==> more[i] == filters[i];
  }

  lemma {:induction false} SelectionAsked(j: Journal, q: Query, narrowed: Query, but: Option<bytes>, rows: seq<uint64>)
    requires forall e :: Selected(j, narrowed, e) <==> AskedFor(j, q, but, e)
    ensures Selection(j, narrowed, rows) == RowsFor(j, q, but, rows)
    decreases |rows|
  {
    if rows != [] { SelectionAsked(j, q, narrowed, but, rows[..|rows|-1]); }
  }

  /** The narrowed query of a facet selects what the request asks for it. */
  lemma FacetAsked(j: Journal, req: Request, facet: bytes, rows: seq<uint64>)
    ensures FacetRows(j, req, rows, facet) == RowsFor(j, req.query, Ignored(req, facet), rows)
  {
    var narrowed := Narrow(req.query, ExcludedFor(req, facet));
    forall e ensures Selected(j, narrowed, e) <==> AskedFor(j, req.query, Ignored(req, facet), e) {
      if ExcludedFor(req, facet).Some? { WithoutMeans(j, e, req.query.filters, facet); }
    }
    SelectionAsked(j, req.query, narrowed, Ignored(req, facet), rows);
  }

  lemma QueryAsked(j: Journal, q: Query, rows: seq<uint64>)
    ensures Selection(j, q, rows) == RowsFor(j, q, None, rows)
  {
    forall e ensures Selected(j, q, e) <==> AskedFor(j, q, None, e) {}
    SelectionAsked(j, q, q, None, rows);
  }

  /** An entry counts for a facet exactly if it is a row in range, both ends included, that holds one
      of the values of every filter with values, its own field's filters aside if so requested. */
  lemma {:induction false} FacetRowsAre(j: Journal, req: Request, facet: bytes, rows: seq<uint64>, e: uint64)
    ensures e in RowsFor(j, req.query, Ignored(req, facet), rows) <==>
              && e in rows && e in j.entries
              && (req.query.after.Some? ==> j.entries[e].realtime >= req.query.after.value)
              && (req.query.before.Some? ==> j.entries[e].realtime <= req.query.before.value)
              && forall f :: f in req.query.filters && f.values != [] && !(req.excludeOwn && f.field == facet) ==> MatchesFilter(j, e, f)
    decreases |rows|
  {
    if rows != [] {
      var n := |rows| - 1;
      FacetRowsAre(j, req, facet, rows[..n], e);
      assert rows == rows[..n] + [rows[n]];
    }
  }

  /** The first rows of the selection, no more than asked for. */
  ghost predicate FirstRows(taken: seq<uint64>, all: seq<uint64>, limit: nat) {
    taken <= all && |taken| <= limit && (|taken| < |all| ==> |taken| == limit)
  }

  /** What is reported from posting lists. */
  ghost predicate PostingReport(r: Report, j: Journal, req: Request, b: Buckets, rows: seq<uint64>) {
    && (forall f :: f in r.facets <==> f in req.facets)
    && (forall f :: f in req.facets ==> PostingTally(r.facets[f], j, RowsFor(j, req.query, Ignored(req, f), rows), f))
    && (r.histogram.Some? <==> req.histogram.Some?)
    && (req.histogram.Some? ==> PostingHistogram(r.histogram.value, j, b, RowsFor(j, req.query, None, rows), req.histogram.value))
    && FirstRows(r.rows, RowsFor(j, req.query, None, rows), req.limit)
  }

  /** What is reported from references. */
  ghost predicate ReferenceReport(r: Report, j: Journal, req: Request, b: Buckets, rows: seq<uint64>) {
    && (forall f :: f in r.facets <==> f in req.facets)
    && (forall f :: f in req.facets ==> ReferenceTally(r.facets[f], j, RowsFor(j, req.query, Ignored(req, f), rows), f))
    && (r.histogram.Some? <==> req.histogram.Some?)
    && (req.histogram.Some? ==> ReferenceHistogram(r.histogram.value, j, b, RowsFor(j, req.query, None, rows), req.histogram.value))
    && FirstRows(r.rows, RowsFor(j, req.query, None, rows), req.limit)
  }

  /** The same, in terms of narrowed queries. */
  ghost predicate PostingsTallied(r: Report, j: Journal, req: Request, b: Buckets, rows: seq<uint64>) {
    && r.facets.Keys == FieldSet(req.facets) && PostingFacets(r.facets, j, req, rows)
    && (r.histogram.Some? <==> req.histogram.Some?)
    && (req.histogram.Some? ==> PostingHistogram(r.histogram.value, j, b, Selection(j, req.query, rows), req.histogram.value))
    && r.rows == Firsts(Selection(j, req.query, rows), req.limit)
  }

  ghost predicate ReferencesTallied(r: Report, j: Journal, req: Request, b: Buckets, rows: seq<uint64>) {
    && r.facets.Keys == FieldSet(req.facets) && ReferenceFacets(r.facets, j, req, rows)
    && (r.histogram.Some? <==> req.histogram.Some?)
    && (req.histogram.Some? ==> ReferenceHistogram(r.histogram.value, j, b, Selection(j, req.query, rows), req.histogram.value))
    && r.rows == Firsts(Selection(j, req.query, rows), req.limit)
  }

  lemma FieldsOfSet(t: map<bytes, Tally>, fields: seq<bytes>)
    requires t.Keys == FieldSet(fields)
    ensures forall f :: f in t <==> f in fields
  {
    forall f ensures f in t <==> f in fields {
      assert f in t <==> f in FieldSet(fields);
    }
  }

  lemma PostingsReported(r: Report, j: Journal, req: Request, b: Buckets, rows: seq<uint64>)
    requires PostingsTallied(r, j, req, b, rows)
    ensures PostingReport(r, j, req, b, rows)
  {
    FieldsOfSet(r.facets, req.facets);
    QueryAsked(j, req.query, rows);
    forall f | f in req.facets ensures PostingTally(r.facets[f], j, RowsFor(j, req.query, Ignored(req, f), rows), f) {
      FacetAsked(j, req, f, rows);
    }
  }

  lemma ReferencesReported(r: Report, j: Journal, req: Request, b: Buckets, rows: seq<uint64>)
    requires ReferencesTallied(r, j, req, b, rows)
    ensures ReferenceReport(r, j, req, b, rows)
  {
    FieldsOfSet(r.facets, req.facets);
    QueryAsked(j, req.query, rows);
    forall f | f in req.facets ensures ReferenceTally(r.facets[f], j, RowsFor(j, req.query, Ignored(req, f), rows), f) {
      FacetAsked(j, req, f, rows);
    }
  }

  function FieldSet(fields: seq<bytes>): set<bytes> {
    set f | f in fields
  }

  lemma OneMoreField(fields: seq<bytes>, i: nat)
    requires i < |fields|
    ensures FieldSet(fields[..i+1]) == FieldSet(fields[..i]) + {fields[i]}
  {
    assert fields[..i+1] == fields[..i] + [fields[i]];
  }

  lemma NoFields(fields: seq<bytes>)
    ensures fields == [] || exists f :: f in fields
  {
    if fields != [] { assert fields[0] in fields; }
  }

  // ----- facets by the filters they ignore

  datatype Group = Group(excluded: Option<bytes>, facets: seq<bytes>)

  /** The first facets are in groups, each in the group of the field whose filters it ignores. */
  ghost predicate Grouped(req: Request, groups: seq<Group>, done: set<bytes>) {
    && (forall a, c :: 0 <= a < c < |groups| ==> groups[a].excluded != groups[c].excluded)
    && (forall a :: 0 <= a < |groups| ==> NoDuplicates(groups[a].facets))
    && (forall a, f :: 0 <= a < |groups| && f in groups[a].facets ==> f in done && ExcludedFor(req, f) == groups[a].excluded)
    && (forall f :: f in done ==> exists a :: 0 <= a < |groups| && f in groups[a].facets)
  }

  /** Adds one facet to its group. */
  method AddFacet(req: Request, groups: seq<Group>, facet: bytes, ghost done: set<bytes>) returns (more: seq<Group>)
    requires Grouped(req, groups, done) && facet !in done
    ensures Grouped(req, more, done + {facet})
  {
    var excluded := ExcludedFor(req, facet);
    var a := 0;
    while a < |groups|
      invariant a <= |groups| && forall c :: 0 <= c < a ==> groups[c].excluded != excluded
    {
      if groups[a].excluded == excluded {
        more := groups[a := Group(excluded, groups[a].facets + [facet])];
        JoinedGroup(req, groups, done, facet, a);
        return;
      }
      a := a + 1;
    }
    more := groups + [Group(excluded, [facet])];
    NewGroup(req, groups, done, facet);
  }

  lemma JoinedGroup(req: Request, groups: seq<Group>, done: set<bytes>, facet: bytes, a: nat)
    requires Grouped(req, groups, done) && facet !in done && a < |groups| && groups[a].excluded == ExcludedFor(req, facet)
    ensures Grouped(req, groups[a := Group(groups[a].excluded, groups[a].facets + [facet])], done + {facet})
  {
    var more := groups[a := Group(groups[a].excluded, groups[a].facets + [facet])];
    assert facet !in groups[a].facets;
    forall f | f in done + {facet} ensures exists c :: 0 <= c < |more| && f in more[c].facets {
      if f == facet {
        assert f in more[a].facets;
      } else {
        var c :| 0 <= c < |groups| && f in groups[c].facets;
        assert f in more[c].facets;
      }
    }
  }

  lemma NewGroup(req: Request, groups: seq<Group>, done: set<bytes>, facet: bytes)
    requires Grouped(req, groups, done) && facet !in done
    requires forall c :: 0 <= c < |groups| ==> groups[c].excluded != ExcludedFor(req, facet)
    ensures Grouped(req, groups + [Group(ExcludedFor(req, facet), [facet])], done + {facet})
  {
    var more := groups + [Group(ExcludedFor(req, facet), [facet])];
    forall f | f in done + {facet} ensures exists c :: 0 <= c < |more| && f in more[c].facets {
      if f == facet {
        assert f in more[|groups|].facets;
      } else {
        var c :| 0 <= c < |groups| && f in groups[c].facets;
        assert f in more[c].facets;
      }
    }
  }

  method FacetGroups(req: Request) returns (groups: seq<Group>)
    requires NoDuplicates(req.facets)
    ensures Grouped(req, groups, FieldSet(req.facets))
  {
    groups := [];
    for i := 0 to |req.facets|
      invariant Grouped(req, groups, FieldSet(req.facets[..i]))
    {
      OneMoreField(req.facets, i);
      groups := AddFacet(req, groups, req.facets[i], FieldSet(req.facets[..i]));
    }
    assert req.facets[..|req.facets|] == req.facets;
  }

  predicate CanCombine(groups: seq<Group>) {
    forall a :: 0 <= a < |groups| ==> groups[a].excluded.None?
  }

  lemma OneCommonGroup(groups: seq<Group>)
    requires forall a, c :: 0 <= a < c < |groups| ==> groups[a].excluded != groups[c].excluded
    ensures CanCombine(groups) ==> |groups| <= 1
  {
    if |groups| > 1 { assert groups[0].excluded != groups[1].excluded; }
  }

  /** When no facet ignores a filter there is one group at most, and it holds every facet. */
  lemma CombinedGroup(req: Request, groups: seq<Group>)
    requires Grouped(req, groups, FieldSet(req.facets)) && CanCombine(groups)
    ensures |groups| <= 1 && forall f :: f in req.facets <==> |groups| == 1 && f in groups[0].facets
  {
    OneCommonGroup(groups);
    forall f ensures f in req.facets <==> |groups| == 1 && f in groups[0].facets {
      assert f in req.facets <==> f in FieldSet(req.facets);
    }
  }

  // ----- what a pass counts

  /** The fields of a pass: the histogram's, and the facets'. */
  ghost predicate Tracks(fields: seq<Tracked>, histogram: Option<bytes>, facets: seq<bytes>) {
    && Distinct(fields)
    && (forall i :: 0 <= i < |fields| ==> (fields[i].facet <==> fields[i].name in facets) && (fields[i].facet || (i == 0 && histogram.Some?)))
    && (forall f :: f in facets ==> exists i :: 0 <= i < |fields| && fields[i].name == f)
    && (histogram.Some? ==> |fields| > 0 && fields[0].name == histogram.value && fields[0].histogram)
  }

  method TrackFacet(fields: seq<Tracked>, histogram: Option<bytes>, facet: bytes, ghost facets: seq<bytes>) returns (more: seq<Tracked>)
    requires Tracks(fields, histogram, facets)
    ensures Tracks(more, histogram, facets + [facet])
  {
    var i := 0;
    while i < |fields|
      invariant i <= |fields| && forall k :: 0 <= k < i ==> fields[k].name != facet
    {
      if fields[i].name == facet {
        more := fields[i := fields[i].(facet := true)];
        forall f | f in facets + [facet] ensures exists k :: 0 <= k < |more| && more[k].name == f {
          if f == facet { assert more[i].name == f; } else {
            var k :| 0 <= k < |fields| && fields[k].name == f;
            assert more[k].name == f;
          }
        }
        return;
      }
      i := i + 1;
    }
    more := fields + [Tracked(facet, true, false)];
    forall f | f in facets + [facet] ensures exists k :: 0 <= k < |more| && more[k].name == f {
      if f == facet { assert more[|fields|].name == f; } else {
        var k :| 0 <= k < |fields| && fields[k].name == f;
        assert more[k].name == f;
      }
    }
  }

  method TrackedFields(histogram: Option<bytes>, facets: seq<bytes>) returns (fields: seq<Tracked>)
    ensures Tracks(fields, histogram, facets) && (fields == [] <==> histogram.None? && facets == [])
  {
    fields := if histogram.Some? then [Tracked(histogram.value, false, true)] else [];
    for i := 0 to |facets|
      invariant Tracks(fields, histogram, facets[..i])
    {
      assert facets[..i+1] == facets[..i] + [facets[i]];
      fields := TrackFacet(fields, histogram, facets[i], facets[..i]);
    }
    assert facets[..|facets|] == facets;
    NoFields(facets);
    if fields != [] && histogram.None? {
      assert fields[0].facet;
      assert fields[0].name in facets;
    }
  }

  // ----- both ways

  /** A strictly verified file, read with its whole population. */
  ghost predicate Explorable(j: Journal, hasher: Hasher, rows: seq<uint64>) {
    && Indexed(j, hasher) && HashIndexed(DataLinks(j), j.dataTable)
    && Ascending(rows) && Elements(rows) == j.entries.Keys
  }

  /** Strict verification makes a file explorable, read in the order of its global array. */
  lemma StrictExplorable(j: Journal, hasher: Hasher)
    requires Parsed(j) && V.StrictIndexed(j, hasher)
    ensures Explorable(j, hasher, GlobalList(j))
  {
    V.StrictUnique(j, hasher);
  }

  lemma SelectedCandidates(j: Journal, hasher: Hasher, q: Query, rows: seq<uint64>)
    requires Explorable(j, hasher, rows)
    ensures Searchable(j, hasher) && (forall e :: e in rows ==> e in j.entries)
    ensures CandidateRows(j, false, Selection(j, q, rows)) && CandidateRows(j, true, rows)
  {
    SelectionMembers(j, q, rows);
    assert forall e :: e in rows <==> e in Elements(rows);
  }

  /** The tallies of the facets of one group, from posting lists. */
  method IndexedGroup(j: Journal, hasher: Hasher, q: Query, facets: seq<bytes>, rows: seq<uint64>) returns (r: Result<map<bytes, Tally>>)
    ensures Explorable(j, hasher, rows) ==>
              && r.Ok? && r.value.Keys == FieldSet(facets)
              && forall f :: f in facets ==> PostingTally(r.value[f], j, Selection(j, q, rows), f)
  {
    ghost var good := Explorable(j, hasher, rows);
    if good { SelectedCandidates(j, hasher, q, rows); }
    var c := Candidates(j, hasher, q, true, rows);
    if c.Err? { return Err(c.error); }
    var tallies: map<bytes, Tally> := map[];
    for i := 0 to |facets|
      invariant tallies.Keys == FieldSet(facets[..i])
      invariant good ==> forall f :: f in facets[..i] ==> PostingTally(tallies[f], j, Selection(j, q, rows), f)
    {
      var t := IndexedFacet(j, hasher, facets[i], c.value.0, c.value.1);
      if t.Err? { return Err(t.error); }
      OneMoreField(facets, i);
      tallies := tallies[facets[i] := t.value];
    }
    assert facets[..|facets|] == facets;
    return Ok(tallies);
  }

  /** The tallies so far are those of the facets in the first groups. */
  ghost predicate GroupsDone(groups: seq<Group>, n: nat, keys: set<bytes>)
    requires n <= |groups|
  {
    forall f :: f in keys <==> exists a :: 0 <= a < n && f in groups[a].facets
  }

  lemma GroupsDoneNext(groups: seq<Group>, n: nat, keys: set<bytes>)
    requires n < |groups| && GroupsDone(groups, n, keys)
    ensures GroupsDone(groups, n + 1, keys + FieldSet(groups[n].facets))
  {
  }

  lemma AllGroupsDone(req: Request, groups: seq<Group>, keys: set<bytes>)
    requires Grouped(req, groups, FieldSet(req.facets)) && GroupsDone(groups, |groups|, keys)
    ensures keys == FieldSet(req.facets)
  {
  }

  ghost predicate PostingFacets(t: map<bytes, Tally>, j: Journal, req: Request, rows: seq<uint64>) {
    forall f :: f in t ==> PostingTally(t[f], j, FacetRows(j, req, rows, f), f)
  }

  ghost predicate ReferenceFacets(t: map<bytes, Tally>, j: Journal, req: Request, rows: seq<uint64>) {
    forall f :: f in t ==> ReferenceTally(t[f], j, FacetRows(j, req, rows, f), f)
  }

  lemma ReferenceFacetsJoin(t: map<bytes, Tally>, more: map<bytes, Tally>, j: Journal, req: Request, g: Group, rows: seq<uint64>)
    requires ReferenceFacets(t, j, req, rows)
    requires forall f :: f in more ==> ExcludedFor(req, f) == g.excluded
    requires forall f :: f in more ==> ReferenceTally(more[f], j, Selection(j, Narrow(req.query, g.excluded), rows), f)
    ensures ReferenceFacets(t + more, j, req, rows)
  {
  }

  lemma PostingFacetsJoin(t: map<bytes, Tally>, more: map<bytes, Tally>, j: Journal, req: Request, g: Group, rows: seq<uint64>)
    requires PostingFacets(t, j, req, rows)
    requires forall f :: f in more ==> ExcludedFor(req, f) == g.excluded
    requires forall f :: f in more ==> PostingTally(more[f], j, Selection(j, Narrow(req.query, g.excluded), rows), f)
    ensures PostingFacets(t + more, j, req, rows)
  {
  }

  method IndexedFacets(j: Journal, hasher: Hasher, req: Request, rows: seq<uint64>) returns (r: Result<map<bytes, Tally>>)
    requires NoDuplicates(req.facets)
    ensures Explorable(j, hasher, rows) ==>
              r.Ok? && r.value.Keys == FieldSet(req.facets) && PostingFacets(r.value, j, req, rows)
  {
    var groups := FacetGroups(req);
    var tallies: map<bytes, Tally> := map[];
    for n := 0 to |groups|
      invariant Explorable(j, hasher, rows) ==> GroupsDone(groups, n, tallies.Keys) && PostingFacets(tallies, j, req, rows)
    {
      var g := groups[n];
      var more := IndexedGroup(j, hasher, Narrow(req.query, g.excluded), g.facets, rows);
      if more.Err? { return Err(more.error); }
      if Explorable(j, hasher, rows) {
        GroupsDoneNext(groups, n, tallies.Keys);
        PostingFacetsJoin(tallies, more.value, j, req, g, rows);
      }
      tallies := tallies + more.value;
    }
    if Explorable(j, hasher, rows) { AllGroupsDone(req, groups, tallies.Keys); }
    return Ok(tallies);
  }

  /** The candidates of a pass match the filters, and selecting among them by the whole query is
      selecting among all rows. */
  lemma CandidatesMatch(j: Journal, q: Query, q0: Query, rows: seq<uint64>)
    requires q0 == q || q0 == q.(after := None, before := None)
    requires InOrder(j, q, rows)
    ensures Matching(j, q, Selection(j, q0, rows)) && InOrder(j, q, Selection(j, q0, rows))
    ensures Selection(j, q, Selection(j, q0, rows)) == Selection(j, q, rows)
  {
    SelectionMatches(j, q, q0, rows);
    SelectTwice(j, q, q0, rows);
    if Timed(q) { SelectionKeepsTimes(j, q0, rows); }
  }

  lemma SelectionMatches(j: Journal, q: Query, q0: Query, rows: seq<uint64>)
    requires q0.filters == q.filters
    ensures Matching(j, q, Selection(j, q0, rows))
  {
    SelectionMembers(j, q0, rows);
    var s := Selection(j, q0, rows);
    forall i | 0 <= i < |s| ensures s[i] in j.entries && MatchesAll(j, s[i], q.filters) {
      assert s[i] in s;
    }
  }

  /** The first rows, from candidates that already are in range. */
  method IndexedRows(j: Journal, hasher: Hasher, q: Query, limit: nat, rows: seq<uint64>) returns (r: Result<seq<uint64>>)
    requires Explorable(j, hasher, rows) && InOrder(j, q, rows)
    ensures r.Ok? && r.value == Firsts(Selection(j, q, rows), limit)
  {
    if limit == 0 { return Ok([]); }
    SelectedCandidates(j, hasher, q, rows);
    CandidatesMatch(j, q, q, rows);
    var c := Candidates(j, hasher, q, true, rows);
    var taken := TakeRows(j, q, c.value.0, c.value.1, limit);
    return Ok(taken);
  }

  /** The report from posting lists. */
  method ExploreIndexed(j: Journal, hasher: Hasher, req: Request, b: Buckets, rows: seq<uint64>) returns (r: Result<Report>)
    requires ValidRequest(req) && Explorable(j, hasher, rows) && InOrder(j, req.query, rows)
    ensures r.Ok? && PostingReport(r.value, j, req, b, rows)
  {
    var taken := IndexedRows(j, hasher, req.query, req.limit, rows);
    var facets := IndexedFacets(j, hasher, req, rows);
    var histogram: Option<Histogram> := None;
    if req.histogram.Some? {
      SelectedCandidates(j, hasher, req.query, rows);
      var c := Candidates(j, hasher, req.query, true, rows);
      var h := IndexedHistogram(j, hasher, req.histogram.value, b, c.value.0, c.value.1);
      histogram := Some(h.value);
    }
    var report := Report(facets.value, histogram, taken.value);
    PostingsReported(report, j, req, b, rows);
    return Ok(report);
  }

  /** One pass over the rows of a query. */
  method Traverse(j: Journal, hasher: Hasher, hash: C.Hash, q: Query, fields: seq<Tracked>, b: Buckets, limit: nat, rows: seq<uint64>)
    returns (acc: Accumulator, taken: seq<uint64>)
    requires Explorable(j, hasher, rows) && InOrder(j, q, rows) && Distinct(fields) && fields != []
    ensures fresh(acc) && acc.Valid() && acc.j == j && acc.fields == fields && acc.b == b && acc.Resolved(hasher)
    ensures acc.rows == Selection(j, q, rows) && taken == Firsts(acc.rows, limit)
  {
    SelectedCandidates(j, hasher, q, rows);
    CandidatesMatch(j, q, q.(after := None, before := None), rows);
    var c := Candidates(j, hasher, q, false, rows);
    acc := new Accumulator(j, fields, b, hash);
    taken := ScanRows(acc, q, c.value.0, c.value.1, limit);
  }

  /** The tallies of the facets among the first `n` fields of a pass. */
  ghost predicate CountedFacets(t: map<bytes, Tally>, j: Journal, rows: seq<uint64>, fields: seq<Tracked>, n: nat)
    requires n <= |fields|
  {
    && (forall f :: f in t <==> exists k :: 0 <= k < n && fields[k].facet && fields[k].name == f)
    && (forall f :: f in t ==> ReferenceTally(t[f], j, rows, f))
  }

  lemma CountedNext(t: map<bytes, Tally>, j: Journal, rows: seq<uint64>, fields: seq<Tracked>, n: nat, tally: Tally)
    requires n < |fields| && CountedFacets(t, j, rows, fields, n)
    ensures !fields[n].facet ==> CountedFacets(t, j, rows, fields, n + 1)
    ensures fields[n].facet && ReferenceTally(tally, j, rows, fields[n].name) ==> CountedFacets(t[fields[n].name := tally], j, rows, fields, n + 1)
  {
  }

  lemma CountedAll(t: map<bytes, Tally>, j: Journal, rows: seq<uint64>, fields: seq<Tracked>, histogram: Option<bytes>, facets: seq<bytes>)
    requires CountedFacets(t, j, rows, fields, |fields|) && Tracks(fields, histogram, facets)
    ensures t.Keys == FieldSet(facets)
    ensures forall f :: f in facets ==> ReferenceTally(t[f], j, rows, f)
  {
    assert forall f :: f in t <==> f in facets;
  }

  /** The facets that a pass counted. */
  method FinishFacets(acc: Accumulator, ghost hasher: Hasher, ghost histogram: Option<bytes>, ghost facets: seq<bytes>) returns (t: map<bytes, Tally>)
    requires acc.Valid() && acc.Resolved(hasher) && Tracks(acc.fields, histogram, facets)
    ensures t.Keys == FieldSet(facets)
    ensures forall f :: f in facets ==> ReferenceTally(t[f], acc.j, acc.rows, f)
  {
    t := map[];
    for i := 0 to |acc.fields|
      invariant CountedFacets(t, acc.j, acc.rows, acc.fields, i)
    {
      if acc.fields[i].facet {
        var tally := acc.Facet(i, hasher);
        CountedNext(t, acc.j, acc.rows, acc.fields, i, tally);
        t := t[acc.fields[i].name := tally];
      }
    }
    CountedAll(t, acc.j, acc.rows, acc.fields, histogram, facets);
  }

  /** Facets, histogram and rows in one pass, when no facet ignores a filter. */
  method TraverseCombined(j: Journal, hasher: Hasher, hash: C.Hash, req: Request, b: Buckets, facets: seq<bytes>, rows: seq<uint64>) returns (r: Report)
    requires Explorable(j, hasher, rows) && InOrder(j, req.query, rows)
    requires forall f :: f in facets <==> f in req.facets
    requires forall f :: f in facets ==> ExcludedFor(req, f).None?
    ensures ReferencesTallied(r, j, req, b, rows)
  {
    var fields := TrackedFields(req.histogram, facets);
    if fields == [] {
      var plain := TraverseRows(j, hasher, req.query, req.limit, rows);
      r := Report(map[], None, plain);
      NoFields(req.facets);
      return;
    }
    r := TraverseCounted(j, hasher, hash, req, b, facets, fields, rows);
  }

  method TraverseCounted(j: Journal, hasher: Hasher, hash: C.Hash, req: Request, b: Buckets, ghost facets: seq<bytes>, fields: seq<Tracked>, rows: seq<uint64>)
    returns (r: Report)
    requires Explorable(j, hasher, rows) && InOrder(j, req.query, rows) && fields != [] && Tracks(fields, req.histogram, facets)
    requires forall f :: f in facets <==> f in req.facets
    requires forall f :: f in facets ==> ExcludedFor(req, f).None?
    ensures ReferencesTallied(r, j, req, b, rows)
  {
    var acc, taken := Traverse(j, hasher, hash, req.query, fields, b, req.limit, rows);
    r := FinishReport(acc, hasher, req, facets, taken, rows);
  }

  /** The report of a finished pass. */
  method FinishReport(acc: Accumulator, ghost hasher: Hasher, req: Request, ghost facets: seq<bytes>, taken: seq<uint64>, ghost rows: seq<uint64>)
    returns (r: Report)
    requires acc.Valid() && acc.Resolved(hasher) && Tracks(acc.fields, req.histogram, facets)
    requires acc.rows == Selection(acc.j, req.query, rows) && taken == Firsts(acc.rows, req.limit)
    requires forall f :: f in facets <==> f in req.facets
    requires forall f :: f in facets ==> ExcludedFor(req, f).None?
    ensures ReferencesTallied(r, acc.j, req, acc.b, rows)
  {
    var tallies := FinishFacets(acc, hasher, req.histogram, facets);
    var histogram := FinishHistogram(acc, hasher, req.histogram, facets);
    r := Report(tallies, histogram, taken);
    Reported(r, acc.j, req, acc.b, facets, rows);
  }

  method FinishHistogram(acc: Accumulator, ghost hasher: Hasher, histogram: Option<bytes>, ghost facets: seq<bytes>) returns (r: Option<Histogram>)
    requires acc.Valid() && acc.Resolved(hasher) && Tracks(acc.fields, histogram, facets)
    ensures r.Some? <==> histogram.Some?
    ensures histogram.Some? ==> ReferenceHistogram(r.value, acc.j, acc.b, acc.rows, histogram.value)
  {
    if histogram.None? { return None; }
    var h := acc.HistogramOfField(0, hasher);
    return Some(h);
  }

  lemma Reported(r: Report, j: Journal, req: Request, b: Buckets, facets: seq<bytes>, rows: seq<uint64>)
    requires forall f :: f in facets <==> f in req.facets
    requires forall f :: f in facets ==> ExcludedFor(req, f).None?
    requires r.facets.Keys == FieldSet(facets)
    requires forall f :: f in facets ==> ReferenceTally(r.facets[f], j, Selection(j, req.query, rows), f)
    requires r.histogram.Some? <==> req.histogram.Some?
    requires req.histogram.Some? ==> ReferenceHistogram(r.histogram.value, j, b, Selection(j, req.query, rows), req.histogram.value)
    requires r.rows == Firsts(Selection(j, req.query, rows), req.limit)
    ensures ReferencesTallied(r, j, req, b, rows)
  {
    assert FieldSet(facets) == FieldSet(req.facets);
  }

  /** A pass for rows alone. */
  method TraverseRows(j: Journal, hasher: Hasher, q: Query, limit: nat, rows: seq<uint64>) returns (taken: seq<uint64>)
    requires Explorable(j, hasher, rows) && InOrder(j, q, rows)
    ensures taken == Firsts(Selection(j, q, rows), limit)
  {
    if limit == 0 { return []; }
    SelectedCandidates(j, hasher, q, rows);
    CandidatesMatch(j, q, q.(after := None, before := None), rows);
    var c := Candidates(j, hasher, q, false, rows);
    taken := TakeRows(j, q, c.value.0, c.value.1, limit);
  }

  method TraverseGroup(j: Journal, hasher: Hasher, hash: C.Hash, q: Query, facets: seq<bytes>, b: Buckets, rows: seq<uint64>) returns (t: map<bytes, Tally>)
    requires Explorable(j, hasher, rows) && InOrder(j, q, rows)
    ensures t.Keys == FieldSet(facets) && forall f :: f in facets ==> ReferenceTally(t[f], j, Selection(j, q, rows), f)
  {
    var fields := TrackedFields(None, facets);
    if fields == [] { return map[]; }
    var acc, _ := Traverse(j, hasher, hash, q, fields, b, 0, rows);
    t := FinishFacets(acc, hasher, None, facets);
  }

  method TraverseGroups(j: Journal, hasher: Hasher, hash: C.Hash, req: Request, b: Buckets, groups: seq<Group>, rows: seq<uint64>) returns (t: map<bytes, Tally>)
    requires Explorable(j, hasher, rows) && InOrder(j, req.query, rows) && Grouped(req, groups, FieldSet(req.facets))
    ensures t.Keys == FieldSet(req.facets) && ReferenceFacets(t, j, req, rows)
  {
    t := map[];
    for n := 0 to |groups|
      invariant GroupsDone(groups, n, t.Keys) && ReferenceFacets(t, j, req, rows)
    {
      var g := groups[n];
      var more := TraverseGroup(j, hasher, hash, Narrow(req.query, g.excluded), g.facets, b, rows);
      GroupsDoneNext(groups, n, t.Keys);
      ReferenceFacetsJoin(t, more, j, req, g, rows);
      t := t + more;
    }
    AllGroupsDone(req, groups, t.Keys);
  }

  /** The report row by row. */
  method ExploreRows(j: Journal, hasher: Hasher, hash: C.Hash, req: Request, b: Buckets, rows: seq<uint64>) returns (r: Report)
    requires ValidRequest(req) && Explorable(j, hasher, rows) && InOrder(j, req.query, rows)
    ensures ReferenceReport(r, j, req, b, rows)
  {
    r := TraverseAll(j, hasher, hash, req, b, rows);
    ReferencesReported(r, j, req, b, rows);
  }

  /** One combined pass, or one for rows and histogram and one per group. */
  method TraverseAll(j: Journal, hasher: Hasher, hash: C.Hash, req: Request, b: Buckets, rows: seq<uint64>) returns (r: Report)
    requires ValidRequest(req) && Explorable(j, hasher, rows) && InOrder(j, req.query, rows)
    ensures ReferencesTallied(r, j, req, b, rows)
  {
    var groups := FacetGroups(req);
    if CanCombine(groups) {
      CombinedGroup(req, groups);
      r := TraverseCombined(j, hasher, hash, req, b, if |groups| == 0 then [] else groups[0].facets, rows);
      return;
    }
    var main := TraverseCombined(j, hasher, hash, req.(facets := []), b, [], rows);
    var tallies := TraverseGroups(j, hasher, hash, req, b, groups, rows);
    r := main.(facets := tallies);
  }

  /** No selected row repeats a reference to a value of a field that is tallied. */
  ghost predicate NothingRepeats(j: Journal, req: Request, b: Buckets, rows: seq<uint64>) {
    && (forall f :: f in req.facets ==> NoRepeats(j, RowsFor(j, req.query, Ignored(req, f), rows), f))
    && (req.histogram.Some? ==> NoRepeatsIn(j, b, RowsFor(j, req.query, None, rows), req.histogram.value))
  }

  /** The facets agree exactly when no row of theirs repeats. */
  lemma FacetsAgree(s: map<bytes, Tally>, t: map<bytes, Tally>, j: Journal, hasher: Hasher, req: Request, rows: seq<uint64>)
    requires PayloadsUnique(j, hasher) && 0 !in j.data && ReferencesResolve(j)
    requires forall f :: (f in s <==> f in req.facets) && (f in t <==> f in req.facets)
    requires forall f :: f in req.facets ==> PostingTally(s[f], j, RowsFor(j, req.query, Ignored(req, f), rows), f)
    requires forall f :: f in req.facets ==> ReferenceTally(t[f], j, RowsFor(j, req.query, Ignored(req, f), rows), f)
    ensures s == t <==> forall f :: f in req.facets ==> NoRepeats(j, RowsFor(j, req.query, Ignored(req, f), rows), f)
  {
    forall f | f in req.facets ensures s[f] == t[f] <==> NoRepeats(j, RowsFor(j, req.query, Ignored(req, f), rows), f) {
      TalliesAgree(s[f], t[f], j, RowsFor(j, req.query, Ignored(req, f), rows), f, hasher);
    }
    assert (forall f :: f in req.facets ==> s[f] == t[f]) ==> s == t;
  }

  lemma HistogramAgrees(s: Option<Histogram>, t: Option<Histogram>, j: Journal, hasher: Hasher, req: Request, b: Buckets, rows: seq<uint64>)
    requires PayloadsUnique(j, hasher) && 0 !in j.data && ReferencesResolve(j)
    requires s.Some? == req.histogram.Some? == t.Some?
    requires s.Some? ==> PostingHistogram(s.value, j, b, RowsFor(j, req.query, None, rows), req.histogram.value)
    requires s.Some? ==> ReferenceHistogram(t.value, j, b, RowsFor(j, req.query, None, rows), req.histogram.value)
    ensures s == t <==> (s.Some? ==> NoRepeatsIn(j, b, RowsFor(j, req.query, None, rows), req.histogram.value))
  {
    if s.Some? {
      HistogramsAgree(s.value, t.value, j, b, RowsFor(j, req.query, None, rows), req.histogram.value, hasher);
    }
  }

  /** Both ways give the same rows, and the same report exactly when nothing repeats. */
  lemma ReportsAgree(s: Report, t: Report, j: Journal, hasher: Hasher, req: Request, b: Buckets, rows: seq<uint64>)
    requires PayloadsUnique(j, hasher) && 0 !in j.data && ReferencesResolve(j)
    requires PostingReport(s, j, req, b, rows) && ReferenceReport(t, j, req, b, rows)
    ensures s.rows == t.rows && (s == t <==> NothingRepeats(j, req, b, rows))
  {
    FirstRowsUnique(s.rows, t.rows, RowsFor(j, req.query, None, rows), req.limit);
    FacetsAgree(s.facets, t.facets, j, hasher, req, rows);
    HistogramAgrees(s.histogram, t.histogram, j, hasher, req, b, rows);
  }

  lemma FirstRowsUnique(s: seq<uint64>, t: seq<uint64>, all: seq<uint64>, limit: nat)
    requires FirstRows(s, all, limit) && FirstRows(t, all, limit)
    ensures s == t
  {
    assert s == all[..|s|] && t == all[..|t|];
  }

  /** What the explorer refuses: a range that ends before it starts, a field that is empty or has an
      equals sign, a facet asked for twice. */
  lemma Refuses(req: Request)
    ensures ValidRequest(req) <==>
              && !(req.query.after.Some? && req.query.before.Some? && req.query.before.value < req.query.after.value)
              && (forall f :: f in NamedFields(req) ==> f != [] && EQUALS !in f)
              && (forall i, k :: 0 <= i < k < |req.facets| ==> req.facets[i] != req.facets[k])
  {
    if forall f :: f in NamedFields(req) ==> f != [] && EQUALS !in f {
      forall f | f in req.query.filters ensures UsableField(f.field) { assert f.field in NamedFields(req); }
      forall f | f in req.facets ensures UsableField(f) { assert f in NamedFields(req); }
      assert req.histogram.Some? ==> req.histogram.value in NamedFields(req);
    }
    if ValidRequest(req) {
      forall f | f in NamedFields(req) ensures f != [] && EQUALS !in f { assert UsableField(f); }
    }
  }

  /** Every field that a request names. */
  ghost function NamedFields(req: Request): set<bytes> {
    (set f | f in req.query.filters :: f.field) + (set f | f in req.facets)
    + if req.histogram.Some? then {req.histogram.value} else {}
  }

  datatype Comparison = Refused | Compared(indexed: Report, traversed: Report)

  /** Answers a request both ways. A file whose rows are out of time order is included as long as
      the request looks at no times. */
  method ExploreCompare(j: Journal, hasher: Hasher, hash: C.Hash, req: Request, b: Buckets, rows: seq<uint64>) returns (r: Comparison, same: bool)
    requires Explorable(j, hasher, rows) && InOrder(j, req.query, rows)
    ensures r.Refused? <==> !ValidRequest(req)
    ensures r.Compared? ==> PostingReport(r.indexed, j, req, b, rows) && ReferenceReport(r.traversed, j, req, b, rows)
    ensures same <==> r.Compared? && r.indexed == r.traversed
    ensures r.Compared? ==> (same <==> NothingRepeats(j, req, b, rows))
  {
    if !ValidRequest(req) { return Refused, false; }
    var traversed := ExploreRows(j, hasher, hash, req, b, rows);
    var indexed := ExploreIndexed(j, hasher, req, b, rows);
    ReportsAgree(indexed.value, traversed, j, hasher, req, b, rows);
    return Compared(indexed.value, traversed), indexed.value == traversed;
  }

  // ----- a file on which they differ

  /** One entry (at 24) that refers twice to the DATA object "A=1" (at 8), listed in the only
      ENTRY_ARRAY (at 32). */
  function Twice(): Journal {
    Journal(Header(false, false, 1, 32, 0, 0),
            map[8 := DataObject([65, 61, 49], 0, 0, 0, 24, 0, 1, 0, 0)],
            map[16 := FieldObject([65], 0, 0, 8)],
            map[24 := EntryObject(1, 1, 1, 1, [8, 8])],
            map[32 := EntryArray(0, [24])],
            [HashItem(8, 8)], [HashItem(16, 16)])
  }

  lemma TwiceListed()
    ensures Parsed(Twice()) && GlobalListed(Twice()) && ReferencesResolve(Twice()) && AllDataListed(Twice())
  {
    var j := Twice();
    assert GlobalList(j) == [24];
    assert PostingList(j, 8) == [24];
    assert Shaped(j, Global) && Shaped(j, Of(8));
    assert DataListed(j, 8);
  }

  lemma TwiceStrict()
    ensures StrictPostings(Twice())
  {
    var j := Twice();
    TwiceListed();
    assert Opened(j, Of(8), Total(j, Of(8))) == [];
    assert Opened(j, Global, Total(j, Global)) == [32];
    assert IsOwner(j, Global) && 32 in Opened(j, Global, Total(j, Global));
  }

  lemma TwiceHashed()
    ensures HashIndexed(DataLinks(Twice()), Twice().dataTable) && HashIndexed(FieldLinks(Twice()), Twice().fieldTable)
  {
    var j := Twice();
    var d, f := DataLinks(j), FieldLinks(j);
    assert d.Keys == {8} && f.Keys == {16};
    assert Chain(d, 8) == [8] && Chain(f, 16) == [16];
    assert BucketOk(d, j.dataTable, 0) && BucketOk(f, j.fieldTable, 0);
  }

  /** A hash under which every payload falls into bucket 0. */
  const ZERO_HASH: Hasher := (payload: bytes) => 0

  lemma TwiceNamed()
    ensures FieldName([65, 61, 49]) == [65]
  {
    assert FieldName([61, 49]) == [];
    assert [65, 61, 49][1..] == [61, 49];
  }

  lemma TwiceFields()
    ensures FieldIndexed(Twice())
  {
    var j := Twice();
    TwiceNamed();
    assert Values(j.data, 8) == [8];
    assert FieldOk(j, 16);
    assert OnChain(j, 16, 8);
  }

  lemma TwiceReadable()
    ensures V.SoundData(Twice().data, Twice().data.Keys, ZERO_HASH) && V.FieldsReadable(Twice(), ZERO_HASH)
  {
    TwiceNamed();
    V.NamedPayload(Twice().data[8].payload);
    assert V.Readable(Twice().data[8], ZERO_HASH);
  }

  /** Strict verification accepts this file. */
  lemma TwiceAccepted()
    ensures V.StrictIndexed(Twice(), ZERO_HASH)
  {
    TwiceStrict();
    TwiceHashed();
    TwiceFields();
    TwiceReadable();
  }

  /** Strict verification accepts this file, yet its one row counts once by postings and twice by
      references. */
  lemma TwiceDiffers()
    ensures V.StrictIndexed(Twice(), ZERO_HASH)
    ensures RowCount(Twice(), [24], 8) == 1 && RefCount(Twice(), [24], 8) == 2
    ensures !NoRepeats(Twice(), [24], [65])
  {
    TwiceAccepted();
    TwiceNamed();
    var j := Twice();
    assert RowCount(j, [], 8) == 0 && RefCount(j, [], 8) == 0;
    assert [24][..0] == [];
    assert Items(j, 24) == [8, 8];
    assert Contains(j, 24, 8);
    assert multiset([8, 8])[8] == 2;
    assert IsValue(j.data[8].payload, [65]);
    assert !SingleRef(j, [24], 8);
  }
}
