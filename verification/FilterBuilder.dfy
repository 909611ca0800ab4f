/** Compiling match calls into an expression of posting cursors
    (go/journal/reader_filter.go:36-170). */
module FilterBuilder {
  import opened JournalGraph
  import opened StrictSpec
  import opened HashIndex
  import opened FilterCursor
  import opened FilterExpr
  import opened FilterMeaning

  // ----- what the compiler relies on

  /** The posting list of `d` is healthy and holds exactly the entries containing `d`. */
  ghost predicate PostingTrue(j: Journal, d: uint64)
    requires d in j.data
  {
    && j.data[d].nEntries > 0 && j.data[d].entryOffset != 0
    && (j.data[d].nEntries > 1 ==> j.data[d].entryArrayOffset != 0)
    && HealthyPostings(PostingList(j, d), j.data[d].nEntries)
    && forall e :: e in PostingList(j, d) <==> Contains(j, e, d)
  }

  ghost predicate RowIndex(j: Journal, hasher: Hasher) {
    && j.dataTable != [] && HashIndexed(DataLinks(j), j.dataTable)
    && PayloadsUnique(j, hasher) && 0 !in j.data
    && forall d :: d in j.data ==> PostingTrue(j, d)
  }

  /** A journal that passed the strict posting and hash checks answers row queries. */
  lemma StrictGivesRowIndex(j: Journal, hasher: Hasher)
    requires Parsed(j) && StrictPostings(j) && PayloadsUnique(j, hasher)
    requires j.dataTable != [] && HashIndexed(DataLinks(j), j.dataTable)
    ensures RowIndex(j, hasher)
  {
    forall d | d in j.data ensures PostingTrue(j, d) {
      assert DataListed(j, d);
      PostingListLength(j, d);
      assert !Contains(j, 0, d);
    }
  }

  // ----- lists of expressions

  ghost predicate Disjoint(es: seq<Expr>) {
    forall i, k :: 0 <= i < k < |es| ==> Leaves(es[i]) !! Leaves(es[k])
  }

  ghost predicate AllValid(es: seq<Expr>, arrays: Arrays)
    reads Leaves(Or(es))
  {
    && Disjoint(es) && (forall i :: 0 <= i < |es| ==> WellFormed(es[i]))
    && forall p :: p in Leaves(Or(es)) ==> p.Valid(arrays)
  }

  ghost predicate AllHealthy(es: seq<Expr>, arrays: Arrays) {
    forall i :: 0 <= i < |es| ==> Healthy(es[i], arrays)
  }

  function CollapseAnd(parts: seq<Expr>): Expr {
    if |parts| == 1 then parts[0] else And(parts)
  }

  function CollapseOr(parts: seq<Expr>): Expr
    requires parts != []
  {
    if |parts| == 1 then parts[0] else Or(parts)
  }

  lemma SingleLeaves(e: Expr)
    ensures Leaves(Or([e])) == Leaves(e)
  {
    assert [e] == [] + [e];
    AppendLeaves([], e);
  }

  /** Collapsing a list of one keeps its leaves and its meaning. */
  lemma Collapsed(parts: seq<Expr>, arrays: Arrays)
    requires parts != [] && AllValid(parts, arrays)
    ensures Leaves(CollapseAnd(parts)) == Leaves(CollapseOr(parts)) == Leaves(Or(parts))
    ensures Valid(CollapseAnd(parts), arrays) && Valid(CollapseOr(parts), arrays)
  {
    assert Leaves(And(parts)) == Leaves(Or(parts));
    if |parts| == 1 {
      assert parts == [parts[0]];
      SingleLeaves(parts[0]);
    }
  }

  lemma CollapsedHealthy(parts: seq<Expr>, arrays: Arrays)
    requires parts != [] && AllHealthy(parts, arrays)
    ensures Healthy(CollapseAnd(parts), arrays) && Healthy(CollapseOr(parts), arrays)
  {
  }

  lemma CollapsedMeans(parts: seq<Expr>, arrays: Arrays, x: uint64)
    requires parts != []
    ensures Selects(CollapseAnd(parts), arrays, x) <==> forall i :: 0 <= i < |parts| ==> Selects(parts[i], arrays, x)
    ensures Selects(CollapseOr(parts), arrays, x) <==> exists i :: 0 <= i < |parts| && Selects(parts[i], arrays, x)
  {
  }

  lemma AppendLeaves(es: seq<Expr>, e: Expr)
    ensures Leaves(Or(es + [e])) == Leaves(Or(es)) + Leaves(e)
  {
    var all := es + [e];
    forall p | p in Leaves(Or(es)) + Leaves(e) ensures p in Leaves(Or(all)) {
      if p in Leaves(e) {
        assert all[|es|] == e;
      } else {
        var i :| 0 <= i < |es| && p in Leaves(es[i]);
        assert all[i] == es[i];
      }
    }
    forall p | p in Leaves(Or(all)) ensures p in Leaves(Or(es)) + Leaves(e) {
      var i :| 0 <= i < |all| && p in Leaves(all[i]);
    }
  }

  lemma AppendValid(es: seq<Expr>, e: Expr, arrays: Arrays)
    requires AllValid(es, arrays) && Valid(e, arrays) && Leaves(Or(es)) !! Leaves(e)
    ensures AllValid(es + [e], arrays)
    ensures Leaves(Or(es + [e])) == Leaves(Or(es)) + Leaves(e)
  {
    AppendLeaves(es, e);
    var all := es + [e];
    forall i, k | 0 <= i < k < |all| ensures Leaves(all[i]) !! Leaves(all[k]) {
      if k == |es| {
        PartLeaves(Or(es), i);
      }
    }
  }

  // ----- one match

  /** The expression of a single match: the cursor of its DATA object, or nothing. */
  method BuildValue(j: Journal, hasher: Hasher, payload: bytes) returns (r: Result<Expr>)
    ensures r.Ok? ==> fresh(Leaves(r.value)) && Valid(r.value, j.arrays)
    ensures RowIndex(j, hasher) ==> r.Ok? && Healthy(r.value, j.arrays)
    ensures RowIndex(j, hasher) ==> forall x :: Selects(r.value, j.arrays, x) <==> Has(j, x, payload)
  {
    if |j.dataTable| == 0 {
      return Err(CorruptObject);
    }
    var found := FindData(j, hasher, payload);
    if found.Err? {
      return Err(found.error);
    }
    if found.value == 0 {
      return Ok(False);
    }
    var d := found.value;
    if RowIndex(j, hasher) {
      assert PostingTrue(j, d);
      ValueMeaning(j, hasher, payload, d);
    }
    var data := j.data[d];
    if (data.nEntries == 0) != (data.entryOffset == 0) {
      return Err(TailFailure);
    }
    if data.nEntries > 1 && data.entryArrayOffset == 0 {
      return Err(TailFailure);
    }
    if data.nEntries == 0 {
      return Ok(False);
    }
    var cursor := new PostingCursor(d, data.nEntries, data.entryOffset, data.entryArrayOffset);
    assert cursor.List(j.arrays) == PostingList(j, d);
    return Ok(Match(cursor));
  }

  lemma ValueMeaning(j: Journal, hasher: Hasher, payload: bytes, d: uint64)
    requires PayloadsUnique(j, hasher) && Holds(j, payload, d) && PostingTrue(j, d)
    ensures forall x :: x in PostingList(j, d) <==> Has(j, x, payload)
  {
    forall x ensures x in PostingList(j, d) <==> Has(j, x, payload) {
      if Has(j, x, payload) {
        var d' :| Contains(j, x, d') && Holds(j, payload, d');
        assert d' == d;
      }
    }
  }

  // ----- one list of matches

  ghost predicate ValuesMean(j: Journal, values: seq<Expr>, run: seq<bytes>) {
    && |values| == |run|
    && forall i :: 0 <= i < |values| ==> ValueMeans(j, values[i], run[i])
  }

  ghost predicate ValueMeans(j: Journal, value: Expr, payload: bytes) {
    Healthy(value, j.arrays) && forall x :: Selects(value, j.arrays, x) <==> Has(j, x, payload)
  }

  ghost predicate RunMeans(j: Journal, part: Expr, run: seq<bytes>) {
    Healthy(part, j.arrays) && forall x :: Selects(part, j.arrays, x) <==> AnyHas(j, run, x)
  }

  ghost predicate GroupExprMeans(j: Journal, e: Expr, group: seq<bytes>) {
    Healthy(e, j.arrays) && forall x :: Selects(e, j.arrays, x) <==> GroupMeans(j, group, x)
  }

  lemma RunMeaning(j: Journal, values: seq<Expr>, run: seq<bytes>)
    requires values != [] && ValuesMean(j, values, run)
    ensures RunMeans(j, CollapseOr(values), run)
  {
    assert AllHealthy(values, j.arrays) by {
      assert forall i :: 0 <= i < |values| ==> ValueMeans(j, values[i], run[i]);
    }
    CollapsedHealthy(values, j.arrays);
    forall x ensures Selects(CollapseOr(values), j.arrays, x) <==> AnyHas(j, run, x) {
      CollapsedMeans(values, j.arrays, x);
      if AnyHas(j, run, x) {
        var v :| v in run && Has(j, x, v);
        var i :| 0 <= i < |run| && run[i] == v;
        assert ValueMeans(j, values[i], run[i]);
      }
      if Selects(CollapseOr(values), j.arrays, x) {
        var i :| 0 <= i < |values| && Selects(values[i], j.arrays, x);
        assert ValueMeans(j, values[i], run[i]);
        assert run[i] in run;
      }
    }
  }

  /** The alternatives of one field. */
  method BuildRun(j: Journal, hasher: Hasher, run: seq<bytes>) returns (r: Result<Expr>)
    requires run != []
    ensures r.Ok? ==> fresh(Leaves(r.value)) && Valid(r.value, j.arrays)
    ensures RowIndex(j, hasher) ==> r.Ok? && RunMeans(j, r.value, run)
  {
    var values: seq<Expr> := [];
    ghost var good := RowIndex(j, hasher);
    for i := 0 to |run|
      invariant |values| == i && AllValid(values, j.arrays) && fresh(Leaves(Or(values)))
      invariant good ==> forall k :: 0 <= k < i ==> ValueMeans(j, values[k], run[k])
    {
      LeavesAllocated(Or(values));
      var value := BuildValue(j, hasher, run[i]);
      if value.Err? { return value; }
      AppendValid(values, value.value, j.arrays);
      values := values + [value.value];
    }
    Collapsed(values, j.arrays);
    if good {
      RunMeaning(j, values, run);
    }
    return Ok(CollapseOr(values));
  }

  /** The parts compiled so far mean the matches consumed so far. */
  ghost predicate PartsMean(j: Journal, parts: seq<Expr>, matches: seq<bytes>) {
    && AllHealthy(parts, j.arrays)
    && forall x :: (forall i :: 0 <= i < |parts| ==> Selects(parts[i], j.arrays, x)) <==> GroupMeans(j, matches, x)
  }

  lemma PartsGrow(j: Journal, parts: seq<Expr>, ms: seq<bytes>, start: nat, end: nat, part: Expr)
    requires Cut(ms, start) && start < end <= |ms|
    requires forall i :: start <= i < end ==> FieldName(ms[i]) == FieldName(ms[start])
    requires PartsMean(j, parts, ms[..start]) && RunMeans(j, part, ms[start..end])
    ensures PartsMean(j, parts + [part], ms[..end])
  {
    var all := parts + [part];
    forall x ensures (forall i :: 0 <= i < |all| ==> Selects(all[i], j.arrays, x)) <==> GroupMeans(j, ms[..end], x) {
      GroupGrows(j, ms, start, end, x);
      assert (forall i :: 0 <= i < |all| ==> Selects(all[i], j.arrays, x)) <==>
             (forall i :: 0 <= i < |parts| ==> Selects(parts[i], j.arrays, x)) && Selects(part, j.arrays, x) by {
        assert forall i :: 0 <= i < |parts| ==> all[i] == parts[i];
        assert all[|parts|] == part;
      }
    }
  }

  /** The end of the run of equal field names that starts at `start`. */
  method RunEnd(ms: seq<bytes>, start: nat) returns (end: nat)
    requires start < |ms|
    ensures start < end <= |ms|
    ensures forall i :: start <= i < end ==> FieldName(ms[i]) == FieldName(ms[start])
    ensures end < |ms| ==> FieldName(ms[end]) != FieldName(ms[start])
  {
    end := start + 1;
    while end < |ms| && FieldName(ms[start]) == FieldName(ms[end])
      invariant start < end <= |ms|
      invariant forall i :: start <= i < end ==> FieldName(ms[i]) == FieldName(ms[start])
    {
      end := end + 1;
    }
  }

  method AppendRun(j: Journal, hasher: Hasher, run: seq<bytes>, parts: seq<Expr>) returns (r: Result<seq<Expr>>)
    requires run != [] && AllValid(parts, j.arrays)
    ensures r.Ok? ==> AllValid(r.value, j.arrays) && fresh(Leaves(Or(r.value)) - Leaves(Or(parts)))
    ensures r.Ok? ==> |r.value| == |parts| + 1 && r.value == parts + [r.value[|parts|]]
    ensures RowIndex(j, hasher) ==> r.Ok? && RunMeans(j, r.value[|parts|], run)
  {
    LeavesAllocated(Or(parts));
    var part := BuildRun(j, hasher, run);
    if part.Err? { return Err(part.error); }
    AppendValid(parts, part.value, j.arrays);
    r := Ok(parts + [part.value]);
  }

  /** Compiles the run of one field that starts at `start`. */
  method AddPart(j: Journal, hasher: Hasher, ms: seq<bytes>, start: nat, parts: seq<Expr>) returns (r: Result<seq<Expr>>, end: nat)
    requires NamesSorted(ms) && Cut(ms, start) && start < |ms| && AllValid(parts, j.arrays)
    ensures start < end <= |ms| && Cut(ms, end)
    ensures r.Ok? ==> AllValid(r.value, j.arrays) && r.value != [] && fresh(Leaves(Or(r.value)) - Leaves(Or(parts)))
    ensures RowIndex(j, hasher) ==> r.Ok?
    ensures RowIndex(j, hasher) && PartsMean(j, parts, ms[..start]) ==> PartsMean(j, r.value, ms[..end])
  {
    LeavesAllocated(Or(parts));
    end := RunEnd(ms, start);
    RunEndsAtCut(ms, start, end);
    r := AppendRun(j, hasher, ms[start..end], parts);
    if RowIndex(j, hasher) && PartsMean(j, parts, ms[..start]) {
      PartsGrow(j, parts, ms, start, end, r.value[|parts|]);
    }
  }

  method BuildParts(j: Journal, hasher: Hasher, ms: seq<bytes>) returns (r: Result<seq<Expr>>)
    requires NamesSorted(ms)
    ensures r.Ok? ==> fresh(Leaves(Or(r.value))) && AllValid(r.value, j.arrays) && (ms != [] ==> r.value != [])
    ensures RowIndex(j, hasher) ==> r.Ok? && PartsMean(j, r.value, ms)
  {
    var parts: seq<Expr> := [];
    var start := 0;
    assert ms[..0] == [];
    while start < |ms|
      invariant 0 <= start <= |ms| && Cut(ms, start)
      invariant AllValid(parts, j.arrays) && fresh(Leaves(Or(parts)))
      invariant start > 0 ==> parts != []
      invariant RowIndex(j, hasher) ==> PartsMean(j, parts, ms[..start])
    {
      var more, end := AddPart(j, hasher, ms, start, parts);
      if more.Err? { return more; }
      parts := more.value;
      start := end;
    }
    assert ms[..start] == ms;
    return Ok(parts);
  }

  /** Compiles one list of matches: an AND over fields of an OR over their values. */
  method BuildGroup(j: Journal, hasher: Hasher, matches: seq<bytes>) returns (r: Result<Expr>)
    requires matches != []
    ensures r.Ok? ==> fresh(Leaves(r.value)) && Valid(r.value, j.arrays)
    ensures RowIndex(j, hasher) ==> r.Ok? && GroupExprMeans(j, r.value, matches)
  {
    var sorted := SortByName(matches);
    SortSorts(matches);
    assert sorted != [] by {
      assert matches[0] in sorted;
    }
    var parts := BuildParts(j, hasher, sorted);
    if parts.Err? { return Err(parts.error); }
    Collapsed(parts.value, j.arrays);
    r := Ok(CollapseAnd(parts.value));
    if RowIndex(j, hasher) {
      CollapsedHealthy(parts.value, j.arrays);
      forall x ensures Selects(r.value, j.arrays, x) <==> GroupMeans(j, matches, x) {
        CollapsedMeans(parts.value, j.arrays, x);
        GroupMeansSameMembers(j, sorted, matches, x);
      }
    }
  }

  // ----- the builder

  ghost predicate AnyExprMeans(j: Journal, e: Expr, groups: seq<seq<bytes>>) {
    Healthy(e, j.arrays) && forall x :: Selects(e, j.arrays, x) <==> AnyMeans(j, groups, x)
  }

  ghost predicate GroupsMean(j: Journal, es: seq<Expr>, groups: seq<seq<bytes>>) {
    |es| == |groups| && forall i :: 0 <= i < |es| ==> GroupExprMeans(j, es[i], groups[i])
  }

  ghost predicate TermsMean(j: Journal, es: seq<Expr>, terms: seq<seq<seq<bytes>>>) {
    |es| == |terms| && forall i :: 0 <= i < |es| ==> AnyExprMeans(j, es[i], terms[i])
  }

  lemma GroupsCollapse(j: Journal, es: seq<Expr>, groups: seq<seq<bytes>>)
    requires es != [] && GroupsMean(j, es, groups)
    ensures AnyExprMeans(j, CollapseOr(es), groups)
  {
    assert AllHealthy(es, j.arrays) by {
      assert forall i :: 0 <= i < |es| ==> GroupExprMeans(j, es[i], groups[i]);
    }
    CollapsedHealthy(es, j.arrays);
    forall x ensures Selects(CollapseOr(es), j.arrays, x) <==> AnyMeans(j, groups, x) {
      CollapsedMeans(es, j.arrays, x);
      if Selects(CollapseOr(es), j.arrays, x) {
        var i :| 0 <= i < |es| && Selects(es[i], j.arrays, x);
        assert GroupExprMeans(j, es[i], groups[i]);
        assert groups[i] in groups;
      }
      if AnyMeans(j, groups, x) {
        var g :| g in groups && GroupMeans(j, g, x);
        var i :| 0 <= i < |groups| && groups[i] == g;
        assert GroupExprMeans(j, es[i], groups[i]);
      }
    }
  }

  lemma OneMoreGroup(j: Journal, es: seq<Expr>, groups: seq<seq<bytes>>, e: Expr, group: seq<bytes>)
    requires GroupsMean(j, es, groups) && GroupExprMeans(j, e, group)
    ensures GroupsMean(j, es + [e], groups + [group])
  {
  }

  lemma OneMoreTerm(j: Journal, es: seq<Expr>, terms: seq<seq<seq<bytes>>>, e: Expr, term: seq<seq<bytes>>)
    requires TermsMean(j, es, terms) && AnyExprMeans(j, e, term)
    ensures TermsMean(j, es + [e], terms + [term])
  {
  }

  lemma TermsCollapse(j: Journal, es: seq<Expr>, terms: seq<seq<seq<bytes>>>)
    requires es != [] && TermsMean(j, es, terms)
    ensures Healthy(CollapseAnd(es), j.arrays)
    ensures forall x :: Selects(CollapseAnd(es), j.arrays, x) <==> AllMean(j, terms, x)
  {
    assert AllHealthy(es, j.arrays) by {
      assert forall i :: 0 <= i < |es| ==> AnyExprMeans(j, es[i], terms[i]);
    }
    CollapsedHealthy(es, j.arrays);
    forall x ensures Selects(CollapseAnd(es), j.arrays, x) <==> AllMean(j, terms, x) {
      CollapsedMeans(es, j.arrays, x);
      if Selects(CollapseAnd(es), j.arrays, x) {
        forall t | t in terms ensures AnyMeans(j, t, x) {
          var i :| 0 <= i < |terms| && terms[i] == t;
          assert AnyExprMeans(j, es[i], terms[i]);
        }
      }
      if AllMean(j, terms, x) {
        forall i | 0 <= i < |es| ensures Selects(es[i], j.arrays, x) {
          assert AnyExprMeans(j, es[i], terms[i]);
          assert terms[i] in terms;
        }
      }
    }
  }

  datatype Compiled = NotBuilt | Malformed | Built(expr: Expr)

  class Builder {
    const journal: Journal
    const hasher: Hasher
    var level0: seq<Expr>
    var level1: seq<Expr>
    var current: seq<bytes>
    var pending: bool
    /** What the calls so far ask for. */
    ghost var query: Query

    constructor (j: Journal, h: Hasher)
      ensures journal == j && hasher == h
      ensures Valid() && query == ApplyAll([]) && Cursors() == {}
    {
      journal, hasher := j, h;
      level0, level1, current, pending, query := [], [], [], false, Query([], [], []);
    }

    ghost function Cursors(): set<PostingCursor>
      reads this
    {
      Leaves(Or(level0)) + Leaves(Or(level1))
    }

    ghost predicate Shaped()
      reads this, Cursors()
    {
      && AllValid(level0, journal.arrays) && AllValid(level1, journal.arrays)
      && Leaves(Or(level0)) !! Leaves(Or(level1))
      && current == query.group
      && |level0| == |query.terms| && |level1| == |query.groups|
    }

    /** What is compiled so far means what was asked for so far. */
    ghost predicate Meant()
      reads this
    {
      GroupsMean(journal, level1, query.groups) && TermsMean(journal, level0, query.terms)
    }

    ghost predicate Valid()
      reads this, Cursors()
    {
      Shaped() && (RowIndex(journal, hasher) ==> Meant())
    }

    method AddMatchCall(data: bytes)
      requires Valid()
      modifies this
      ensures Valid() && query == Apply(old(query), AddMatch(data)) && pending
      ensures Cursors() == old(Cursors())
    {
      pending := true;
      if EQUALS in data {
        current := current + [data];
      }
      query := Apply(query, AddMatch(data));
    }

    method CommitCurrent() returns (r: Result<bool>)
      requires Valid()
      modifies this
      ensures r.Ok? ==> Valid() && query == CloseGroup(old(query)) && fresh(Cursors() - old(Cursors()))
      ensures RowIndex(journal, hasher) ==> r.Ok?
      ensures pending == old(pending)
    {
      if current == [] {
        return Ok(true);
      }
      var e := CompileCurrent();
      if e.Err? { return Err(e.error); }
      AppendLeaves(level1, e.value);
      AddGroup(e.value, RowIndex(journal, hasher));
      return Ok(true);
    }

    /** Adds a compiled group as one more alternative of the term. */
    method AddGroup(e: Expr, ghost good: bool)
      requires Shaped() && FilterExpr.Valid(e, journal.arrays) && Leaves(e) !! Cursors() && current != []
      requires good ==> Meant() && GroupExprMeans(journal, e, query.group)
      modifies this
      ensures Shaped() && query == CloseGroup(old(query)) && level0 == old(level0) && level1 == old(level1) + [e] && pending == old(pending)
      ensures good ==> Meant()
    {
      GroupClosed(e, good);
      level1 := level1 + [e];
      query := CloseGroup(query);
      current := [];
    }

    method CompileCurrent() returns (r: Result<Expr>)
      requires Valid() && current != []
      ensures Valid()
      ensures r.Ok? ==> fresh(Leaves(r.value)) && FilterExpr.Valid(r.value, journal.arrays) && Leaves(r.value) !! Cursors()
      ensures RowIndex(journal, hasher) ==> r.Ok? && GroupExprMeans(journal, r.value, query.group)
    {
      LeavesAllocated(Or(level0));
      LeavesAllocated(Or(level1));
      r := BuildGroup(journal, hasher, current);
    }

    /** The compiled group is one more alternative of the term. */
    lemma GroupClosed(e: Expr, good: bool)
      requires Shaped() && FilterExpr.Valid(e, journal.arrays) && Leaves(e) !! Cursors()
      requires good ==> Meant() && GroupExprMeans(journal, e, query.group)
      ensures var more := level1 + [e];
              && AllValid(more, journal.arrays) && Leaves(Or(more)) == Leaves(Or(level1)) + Leaves(e)
              && (good ==> GroupsMean(journal, more, query.groups + [query.group]))
    {
      AppendValid(level1, e, journal.arrays);
      if good { OneMoreGroup(journal, level1, query.groups, e, query.group); }
    }

    method CommitLevel1()
      requires Valid()
      modifies this
      ensures Valid() && query == CloseTerm(old(query))
      ensures Cursors() == old(Cursors()) && pending == old(pending) && level1 == []
    {
      if level1 != [] { AddTerm(RowIndex(journal, hasher)); }
    }

    /** Makes the alternatives of the term one more part of the query. */
    method AddTerm(ghost good: bool)
      requires Shaped() && (good ==> Meant()) && level1 != []
      modifies this
      ensures Shaped() && (good ==> Meant()) && query == CloseTerm(old(query))
      ensures Cursors() == old(Cursors()) && pending == old(pending) && level1 == []
    {
      TermClosed(good);
      level0 := level0 + [CollapseOr(level1)];
      query := CloseTerm(query);
      level1 := [];
      NoGroups();
    }

    /** The alternatives of a term make up one more part of the query. */
    lemma TermClosed(good: bool)
      requires Shaped() && (good ==> Meant()) && level1 != []
      ensures var more := level0 + [CollapseOr(level1)];
              && AllValid(more, journal.arrays) && Leaves(Or(more)) == Cursors()
              && (good ==> TermsMean(journal, more, query.terms + [query.groups]))
    {
      Collapsed(level1, journal.arrays);
      AppendValid(level0, CollapseOr(level1), journal.arrays);
      if good {
        GroupsCollapse(journal, level1, query.groups);
        OneMoreTerm(journal, level0, query.terms, CollapseOr(level1), query.groups);
      }
    }

    lemma NoGroups()
      ensures AllValid([], journal.arrays) && Leaves(Or([])) == {} && GroupsMean(journal, [], [])
    {
    }

    method AddDisjunctionCall() returns (r: Result<bool>)
      requires Valid()
      modifies this
      ensures r.Ok? ==> Valid() && query == Apply(old(query), AddDisjunction) && pending
      ensures r.Ok? ==> fresh(Cursors() - old(Cursors()))
      ensures RowIndex(journal, hasher) ==> r.Ok?
    {
      pending := true;
      r := CommitCurrent();
    }

    method AddConjunctionCall() returns (r: Result<bool>)
      requires Valid()
      modifies this
      ensures r.Ok? ==> Valid() && query == Apply(old(query), AddConjunction) && pending
      ensures r.Ok? ==> fresh(Cursors() - old(Cursors()))
      ensures RowIndex(journal, hasher) ==> r.Ok?
    {
      pending := true;
      r := CommitCurrent();
      if r.Ok? {
        CommitLevel1();
      }
    }

    /** Compiles the calls made so far. The expression selects exactly the rows the calls ask
        for; calls without a usable match are malformed. */
    method Build() returns (r: Result<Compiled>)
      requires Valid()
      modifies this
      ensures !old(pending) ==> r == Ok(NotBuilt)
      ensures r.Ok? && r.value.Built? ==> fresh(Leaves(r.value.expr) - old(Cursors()))
      ensures RowIndex(journal, hasher) ==> r.Ok?
      ensures old(pending) && r.Ok? ==>
                var terms := old(CloseTerm(CloseGroup(query)).terms);
                && (r.value == Malformed <==> terms == [])
                && (terms != [] ==>
                      && r.value.Built? && FilterExpr.Valid(r.value.expr, journal.arrays)
                      && (RowIndex(journal, hasher) ==>
                            && Healthy(r.value.expr, journal.arrays)
                            && forall x :: Selects(r.value.expr, journal.arrays, x) <==> AllMean(journal, terms, x)))
    {
      if !pending {
        return Ok(NotBuilt);
      }
      var committed := CommitCurrent();
      if committed.Err? { return Err(committed.error); }
      CommitLevel1();
      if |level0| == 0 {
        return Ok(Malformed);
      }
      Collapsed(level0, journal.arrays);
      if RowIndex(journal, hasher) {
        TermsCollapse(journal, level0, query.terms);
      }
      r := Ok(Built(CollapseAnd(level0)));
      level0, pending := [], false;
    }
  }
}
