/** From match calls to rows: on a journal that passed the strict index check, any calls
    followed by any interleaving of steps and seeks lead exactly where reading row by row leads. */
module FilteredReading {
  import opened JournalGraph
  import opened StrictSpec
  import opened HashIndex
  import opened FilterExpr
  import opened FilterMeaning
  import opened CallMeaning
  import opened FilterBuilder
  import opened FilterStep

  /** The rows that satisfy the calls. */
  ghost function MeaningSet(j: Journal, terms: seq<seq<seq<bytes>>>): iset<uint64> {
    iset e: uint64 | AllMean(j, terms, e)
  }

  /** Every place and outcome of a run of steps and seeks that reads row by row. */
  ghost function Trace(sel: iset<uint64>, j: Journal, rows: seq<uint64>, p: Position, ops: seq<Operation>): seq<(Position, bool)>
    requires p.Row? ==> -1 <= p.index <= |rows|
    decreases ops
  {
    if ops == [] then []
    else
      var step := OperateRow(sel, j, rows, p, ops[0]);
      [step] + Trace(sel, j, rows, step.0, ops[1..])
  }

  /** Some operation of the run looks at times. */
  predicate SeeksTime(ops: seq<Operation>) {
    exists i :: 0 <= i < |ops| && ops[i].ToTime?
  }

  /** The rows that the calls ask for, read off the calls themselves. */
  ghost function RowsAsked(j: Journal, calls: seq<Call>): iset<uint64> {
    iset e: uint64 | RowAsked(j, calls, e)
  }

  /** The terms that the calls leave behind ask for the same rows. */
  lemma SameRows(j: Journal, calls: seq<Call>)
    ensures MeaningSet(j, Terms(calls)) == RowsAsked(j, calls)
    ensures Terms(calls) != [] <==> Asks(calls)
  {
    forall e: uint64 ensures AllMean(j, Terms(calls), e) <==> RowAsked(j, calls, e) {
      CallsMean(j, calls, e);
    }
    CallsMean(j, calls, 0);
  }

  ghost predicate NoEmptyGroup(q: Query) {
    && (forall g :: g in q.groups ==> g != [])
    && (forall t :: t in q.terms ==> forall g :: g in t ==> g != [])
  }

  lemma {:induction false} GroupsNotEmpty(calls: seq<Call>)
    ensures NoEmptyGroup(ApplyAll(calls))
  {
    if calls != [] {
      var n := |calls| - 1;
      GroupsNotEmpty(calls[..n]);
      var q := ApplyAll(calls[..n]);
      assert NoEmptyGroup(CloseGroup(q));
      assert NoEmptyGroup(CloseTerm(CloseGroup(q)));
    }
  }

  /** Only entries can satisfy calls that contain a match. */
  lemma MeaningIsEntry(j: Journal, calls: seq<Call>, e: uint64)
    requires Terms(calls) != [] && AllMean(j, Terms(calls), e)
    ensures e in j.entries
  {
    GroupsNotEmpty(calls);
    var q := ApplyAll(calls);
    assert NoEmptyGroup(CloseGroup(q));
    assert NoEmptyGroup(CloseTerm(CloseGroup(q)));
    var terms := Terms(calls);
    assert terms[0] in terms;
    assert AnyMeans(j, terms[0], e);
    var g :| g in terms[0] && GroupMeans(j, g, e);
    assert g[0] in g;
    assert FieldMeans(j, g, g[0], e);
  }

  lemma EntriesAreRows(j: Journal, calls: seq<Call>)
    requires Terms(calls) != [] && GlobalListed(j)
    ensures RowsCover(MeaningSet(j, Terms(calls)), GlobalList(j))
  {
    forall e | e in MeaningSet(j, Terms(calls)) ensures e in GlobalList(j) {
      MeaningIsEntry(j, calls, e);
      assert e in Elements(GlobalList(j));
    }
  }

  method MakeCalls(b: Builder, calls: seq<Call>) returns (r: Result<bool>)
    requires b.Valid() && b.query == ApplyAll([])
    modifies b
    ensures RowIndex(b.journal, b.hasher) ==> r.Ok?
    ensures r.Ok? ==> b.Valid() && b.query == ApplyAll(calls) && (calls != [] ==> b.pending)
    ensures r.Ok? ==> fresh(b.Cursors() - old(b.Cursors()))
  {
    for i := 0 to |calls|
      invariant b.Valid() && b.query == ApplyAll(calls[..i]) && (i > 0 ==> b.pending)
      invariant fresh(b.Cursors() - old(b.Cursors()))
    {
      assert calls[..i+1][..i] == calls[..i];
      match calls[i]
      case AddMatch(payload) =>
        b.AddMatchCall(payload);
      case AddDisjunction =>
        r := b.AddDisjunctionCall();
        if r.Err? { return; }
      case AddConjunction =>
        r := b.AddConjunctionCall();
        if r.Err? { return; }
    }
    assert calls[..|calls|] == calls;
    r := Ok(true);
  }

  /** Takes a reader through `ops` and records where it stood after each operation. */
  method RunSteps(reader: FilteredReader, ops: seq<Operation>) returns (r: Result<seq<(Position, bool)>>)
    requires reader.Valid() && reader.Intact() && (SeeksTime(ops) ==> TimesAscend(reader.journal, reader.rows))
    modifies reader, Leaves(reader.expr)
    ensures r.Ok? && r.value == Trace(Selection(reader.expr, reader.journal.arrays), reader.journal, reader.rows, old(reader.At()), ops)
    decreases ops
  {
    if ops == [] {
      return Ok([]);
    }
    assert SeeksTime(ops[1..]) ==> SeeksTime(ops);
    var found := reader.Operate(ops[0]);
    ghost var at := reader.At();
    var here := if reader.realtimeSeek.Some? then Sought(reader.realtimeSeek.value) else Row(reader.entryIndex);
    var rest := RunSteps(reader, ops[1..]);
    return Ok([(here, found.value)] + rest.value);
  }

  datatype Reading = NoFilter | MalformedFilter | Steps(steps: seq<(Position, bool)>)

  method CompileCalls(j: Journal, hasher: Hasher, calls: seq<Call>) returns (r: Result<Compiled>)
    requires RowIndex(j, hasher)
    ensures r.Ok?
    ensures calls == [] <==> r.value == NotBuilt
    ensures calls != [] && Terms(calls) == [] <==> r.value == Malformed
    ensures Terms(calls) != [] ==> r.value.Built? && FilterExpr.Valid(r.value.expr, j.arrays) && Healthy(r.value.expr, j.arrays)
    ensures Terms(calls) != [] ==> fresh(Leaves(r.value.expr))
    ensures Terms(calls) != [] ==> Selection(r.value.expr, j.arrays) == MeaningSet(j, Terms(calls))
  {
    var b := new Builder(j, hasher);
    var made := MakeCalls(b, calls);
    if calls == [] {
      return Ok(NotBuilt);
    }
    r := b.Build();
  }

  lemma NothingAsked()
    ensures Terms([]) == []
  {
  }

  method StepThrough(j: Journal, expr: Expr, rows: seq<uint64>, ops: seq<Operation>) returns (r: Result<seq<(Position, bool)>>)
    requires FilterExpr.Valid(expr, j.arrays) && Healthy(expr, j.arrays)
    requires RowsCover(Selection(expr, j.arrays), rows) && Ascending(rows) && 0 !in rows
    requires RowsAreEntries(j, rows) && (SeeksTime(ops) ==> TimesAscend(j, rows))
    modifies Leaves(expr)
    ensures r.Ok? && r.value == Trace(Selection(expr, j.arrays), j, rows, Row(-1), ops)
  {
    LeavesAllocated(expr);
    var reader := new FilteredReader(j, rows, expr);
    r := RunSteps(reader, ops);
  }

  lemma StrictRows(j: Journal, calls: seq<Call>)
    requires Parsed(j) && StrictPostings(j)
    ensures Ascending(GlobalList(j)) && 0 !in GlobalList(j) && RowsAreEntries(j, GlobalList(j))
    ensures Terms(calls) != [] ==> RowsCover(MeaningSet(j, Terms(calls)), GlobalList(j))
  {
    assert forall i :: 0 <= i < |GlobalList(j)| ==> GlobalList(j)[i] in Elements(GlobalList(j));
    assert 0 in GlobalList(j) ==> 0 in Elements(GlobalList(j));
    if Terms(calls) != [] {
      EntriesAreRows(j, calls);
    }
  }

  /** Calls, then steps and seeks, on a strictly indexed journal: the outcome is the row-by-row one. */
  method ReadFiltered(j: Journal, hasher: Hasher, calls: seq<Call>, ops: seq<Operation>) returns (r: Result<Reading>)
    requires Parsed(j) && StrictPostings(j) && PayloadsUnique(j, hasher)
    requires j.dataTable != [] && HashIndexed(DataLinks(j), j.dataTable)
    requires SeeksTime(ops) ==> TimesAscend(j, GlobalList(j))
    ensures r.Ok?
    ensures calls == [] <==> r.value == NoFilter
    ensures calls != [] && !Asks(calls) <==> r.value == MalformedFilter
    ensures Asks(calls) ==> r.value == Steps(Trace(RowsAsked(j, calls), j, GlobalList(j), Row(-1), ops))
  {
    StrictGivesRowIndex(j, hasher);
    StrictRows(j, calls);
    SameRows(j, calls);
    r := ReadIndexed(j, hasher, calls, ops, GlobalRows(j));
  }

  /** The rows in file order, as loading the global array yields them. */
  function GlobalRows(j: Journal): seq<uint64> {
    ChainItems(j.arrays, j.header.entryArrayOffset, j.header.nEntries)
  }

  method ReadIndexed(j: Journal, hasher: Hasher, calls: seq<Call>, ops: seq<Operation>, rows: seq<uint64>) returns (r: Result<Reading>)
    requires RowIndex(j, hasher)
    requires Ascending(rows) && 0 !in rows
    requires RowsAreEntries(j, rows) && (SeeksTime(ops) ==> TimesAscend(j, rows))
    requires Terms(calls) != [] ==> RowsCover(MeaningSet(j, Terms(calls)), rows)
    ensures r.Ok?
    ensures calls == [] <==> r.value == NoFilter
    ensures calls != [] && Terms(calls) == [] <==> r.value == MalformedFilter
    ensures Terms(calls) != [] ==>
              r.value == Steps(Trace(MeaningSet(j, Terms(calls)), j, rows, Row(-1), ops))
  {
    NothingAsked();
    var built := CompileCalls(j, hasher, calls);
    match built.value
    case NotBuilt =>
      r := Ok(NoFilter);
    case Malformed =>
      r := Ok(MalformedFilter);
    case Built(expr) =>
      var steps := StepThrough(j, expr, rows, ops);
      r := Ok(Steps(steps.value));
  }
}
