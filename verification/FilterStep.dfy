/** Stepping a filtered reader in both directions (go/journal/reader_filter_step.go:25-223),
    against the row-by-row meaning: the next or previous row the expression selects. */
module FilterStep {
  import opened JournalGraph
  import opened FilterCursor
  import opened FilterExpr
  import opened FilterRealtime

  // ----- rows

  /** The first row at or after `i` that is selected; the number of rows when there is none. */
  ghost function NextRow(sel: iset<uint64>, rows: seq<uint64>, i: nat): nat
    decreases |rows| - i
  {
    if i >= |rows| then |rows|
    else if rows[i] in sel then i
    else NextRow(sel, rows, i + 1)
  }

  /** The last row at or before `i` that is selected; -1 when there is none. */
  ghost function PreviousRow(sel: iset<uint64>, rows: seq<uint64>, i: int): (k: int)
    requires i < |rows|
    ensures -1 <= k < |rows|
    decreases i + 1
  {
    if i < 0 then -1
    else if rows[i] in sel then i
    else PreviousRow(sel, rows, i - 1)
  }

  datatype Position = Row(index: int) | Sought(usec: uint64)

  /** The first index whose row is not earlier than `usec`, or later than it. */
  ghost function TimeIndex(j: Journal, rows: seq<uint64>, usec: uint64, after: bool, i: nat): nat
    decreases |rows| - i
  {
    if i >= |rows| then |rows|
    else if rows[i] in j.entries && EarlierRow(j.entries[rows[i]].realtime, usec, after) then TimeIndex(j, rows, usec, after, i + 1)
    else i
  }

  predicate EarlierRow(realtime: uint64, usec: uint64, after: bool) {
    realtime < usec || (after && realtime == usec)
  }

  /** Where one step from `p` along `dir` leads. A step that finds nothing stays. */
  ghost function StepRow(sel: iset<uint64>, j: Journal, rows: seq<uint64>, p: Position, dir: Direction): (r: (Position, bool))
    requires p.Row? ==> -1 <= p.index <= |rows|
    ensures r.0.Row? ==> -1 <= r.0.index <= |rows|
  {
    if dir.Forward? then
      var k := NextRow(sel, rows, if p.Row? then p.index + 1 else TimeIndex(j, rows, p.usec, false, 0));
      if k < |rows| then (Row(k), true) else (p, false)
    else
      TimeIndexBound(j, rows, if p.Row? then 0 else p.usec, true, 0);
      var k := PreviousRow(sel, rows, if p.Row? then p.index - 1 else TimeIndex(j, rows, p.usec, true, 0) - 1);
      if k >= 0 then (Row(k), true) else (p, false)
  }

  /** The rows before the time index are the earlier ones. */
  lemma {:induction false} TimeIndexSplits(j: Journal, rows: seq<uint64>, usec: uint64, after: bool, i: nat)
    requires TimesAscend(j, rows) && i <= |rows|
    ensures i <= TimeIndex(j, rows, usec, after, i) <= |rows|
    ensures forall l :: i <= l < |rows| ==>
              (l < TimeIndex(j, rows, usec, after, i) <==> if after then j.entries[rows[l]].realtime <= usec else j.entries[rows[l]].realtime < usec)
    decreases |rows| - i
  {
    if i < |rows| { TimeIndexSplits(j, rows, usec, after, i + 1); }
  }

  lemma {:induction false} NextRowFinds(sel: iset<uint64>, rows: seq<uint64>, i: nat)
    requires i <= |rows|
    ensures i <= NextRow(sel, rows, i) <= |rows|
    ensures NextRow(sel, rows, i) < |rows| ==> rows[NextRow(sel, rows, i)] in sel
    ensures forall l :: i <= l < NextRow(sel, rows, i) ==> rows[l] !in sel
    decreases |rows| - i
  {
    if i < |rows| { NextRowFinds(sel, rows, i + 1); }
  }

  lemma {:induction false} PreviousRowFinds(sel: iset<uint64>, rows: seq<uint64>, i: int)
    requires -1 <= i < |rows|
    ensures PreviousRow(sel, rows, i) <= i
    ensures PreviousRow(sel, rows, i) >= 0 ==> rows[PreviousRow(sel, rows, i)] in sel
    ensures forall l :: PreviousRow(sel, rows, i) < l <= i ==> rows[l] !in sel
    decreases i + 1
  {
    if i >= 0 { PreviousRowFinds(sel, rows, i - 1); }
  }

  /** Row `l` lies ahead: past the row the reader is on, or on the far side of the time sought, which
      a row at exactly that time always does. */
  ghost predicate Ahead(j: Journal, rows: seq<uint64>, p: Position, dir: Direction, l: nat)
    requires l < |rows| && (p.Sought? ==> RowsAreEntries(j, rows))
  {
    match p
    case Row(index) => if dir.Forward? then l > index else l < index
    case Sought(usec) => if dir.Forward? then j.entries[rows[l]].realtime >= usec else j.entries[rows[l]].realtime <= usec
  }

  /** A step lands on the nearest selected row ahead, or stays where it is when there is none. */
  lemma StepLands(sel: iset<uint64>, j: Journal, rows: seq<uint64>, p: Position, dir: Direction)
    requires if p.Row? then -1 <= p.index <= |rows| else TimesAscend(j, rows)
    ensures var (q, found) := StepRow(sel, j, rows, p, dir);
            if found then
              && q.Row? && 0 <= q.index < |rows| && rows[q.index] in sel && Ahead(j, rows, p, dir, q.index)
              && forall l :: 0 <= l < |rows| && rows[l] in sel && Ahead(j, rows, p, dir, l) ==> Beyond(dir, l, q.index)
            else q == p && forall l :: 0 <= l < |rows| && Ahead(j, rows, p, dir, l) ==> rows[l] !in sel
  {
    if p.Sought? { TimeIndexSplits(j, rows, p.usec, dir.Backward?, 0); }
    var i := FirstRow(j, rows, p, dir);
    if dir.Forward? {
      if i <= |rows| { NextRowFinds(sel, rows, i); }
    } else {
      if i >= -1 { PreviousRowFinds(sel, rows, i); }
    }
  }

  /** What a user of the reader may do. */
  datatype Operation = Move(dir: Direction) | ToHead | ToTail | ToTime(usec: uint64)

  /** Where one operation leads, reading row by row. A seek always succeeds. */
  ghost function OperateRow(sel: iset<uint64>, j: Journal, rows: seq<uint64>, p: Position, op: Operation): (r: (Position, bool))
    requires p.Row? ==> -1 <= p.index <= |rows|
    ensures r.0.Row? ==> -1 <= r.0.index <= |rows|
  {
    match op
    case Move(dir) => StepRow(sel, j, rows, p, dir)
    case ToHead => (Row(-1), true)
    case ToTail => (Row(|rows|), true)
    case ToTime(usec) => (Sought(usec), true)
  }

  lemma {:induction false} TimeIndexBound(j: Journal, rows: seq<uint64>, usec: uint64, after: bool, i: nat)
    ensures TimeIndex(j, rows, usec, after, i) <= |rows|
    decreases |rows| - i
  {
    if i < |rows| { TimeIndexBound(j, rows, usec, after, i + 1); }
  }

  // ----- from offsets to rows

  /** The entries an expression selects. */
  ghost function Selection(e: Expr, arrays: Arrays): iset<uint64> {
    iset x: uint64 | Selects(e, arrays, x)
  }

  ghost predicate RowsCover(sel: iset<uint64>, rows: seq<uint64>) {
    forall x :: x in sel ==> x in rows
  }

  lemma {:induction false} NextRowIs(sel: iset<uint64>, rows: seq<uint64>, i: nat, k: nat)
    requires i <= k <= |rows| && (k < |rows| ==> rows[k] in sel)
    requires forall l :: i <= l < k ==> rows[l] !in sel
    ensures NextRow(sel, rows, i) == k
    decreases k - i
  {
    if i < k { NextRowIs(sel, rows, i + 1, k); }
  }

  lemma {:induction false} PreviousRowIs(sel: iset<uint64>, rows: seq<uint64>, i: int, k: int)
    requires -1 <= k <= i < |rows| && (k >= 0 ==> rows[k] in sel)
    requires forall l :: k < l <= i ==> rows[l] !in sel
    ensures PreviousRow(sel, rows, i) == k
    decreases i - k
  {
    if k < i { PreviousRowIs(sel, rows, i - 1, k); }
  }

  /** `wanted` holds everything further along `dir` than its members. */
  ghost predicate Closed(dir: Direction, wanted: iset<uint64>) {
    forall x: uint64, y: uint64 :: x in wanted && Beyond(dir, y, x) ==> y in wanted
  }

  /** The first row index of a forward step, or the last of a backward one. */
  ghost function FirstRow(j: Journal, rows: seq<uint64>, p: Position, dir: Direction): int {
    match p
    case Row(index) => if dir.Forward? then index + 1 else index - 1
    case Sought(usec) => if dir.Forward? then TimeIndex(j, rows, usec, false, 0) else TimeIndex(j, rows, usec, true, 0) - 1
  }

  /** The offsets a step may land on are those of the rows from row `i` on along `dir`. */
  ghost predicate Scope(rows: seq<uint64>, dir: Direction, i: int, wanted: iset<uint64>) {
    forall l :: 0 <= l < |rows| ==> (rows[l] in wanted <==> Beyond(dir, l, i))
  }

  /** The nearest selected offset in scope is the row the step leads to. */
  lemma AnswerIsRow(e: Expr, j: Journal, rows: seq<uint64>, p: Position, dir: Direction, wanted: iset<uint64>, v: uint64)
    requires Ascending(rows) && 0 !in rows && RowsCover(Selection(e, j.arrays), rows)
    requires p.Row? ==> -1 <= p.index <= |rows|
    requires Scope(rows, dir, FirstRow(j, rows, p, dir), wanted)
    requires Answers(e, j.arrays, dir, wanted, v) && (v != 0 ==> v in wanted)
    ensures v == 0 ==> StepRow(Selection(e, j.arrays), j, rows, p, dir) == (p, false)
    ensures v != 0 ==> StepRow(Selection(e, j.arrays), j, rows, p, dir).1 && StepRow(Selection(e, j.arrays), j, rows, p, dir).0.Row?
    ensures v != 0 ==> 0 <= StepRow(Selection(e, j.arrays), j, rows, p, dir).0.index < |rows| && rows[StepRow(Selection(e, j.arrays), j, rows, p, dir).0.index] == v
  {
    var i := FirstRow(j, rows, p, dir);
    if dir.Forward? {
      NextRowAnswers(e, j.arrays, rows, i, wanted, v);
    } else {
      TimeIndexBound(j, rows, if p.Row? then 0 else p.usec, true, 0);
      PreviousRowAnswers(e, j.arrays, rows, i, wanted, v);
    }
  }

  lemma NextRowAnswers(e: Expr, arrays: Arrays, rows: seq<uint64>, i: nat, wanted: iset<uint64>, v: uint64)
    requires Ascending(rows) && 0 !in rows && RowsCover(Selection(e, arrays), rows)
    requires Scope(rows, Forward, i, wanted)
    requires Answers(e, arrays, Forward, wanted, v) && (v != 0 ==> v in wanted)
    ensures var k := NextRow(Selection(e, arrays), rows, i); if v == 0 then k == |rows| else k < |rows| && rows[k] == v
  {
    var k := |rows|;
    if v != 0 {
      assert v in Selection(e, arrays);
      k :| 0 <= k < |rows| && rows[k] == v;
    }
    if i < |rows| {
      forall l | i <= l < k ensures !Selects(e, arrays, rows[l]) {
        assert rows[l] in wanted;
        assert v != 0 ==> rows[l] < rows[k];
      }
      NextRowIs(Selection(e, arrays), rows, i, k);
    }
  }

  lemma PreviousRowAnswers(e: Expr, arrays: Arrays, rows: seq<uint64>, i: int, wanted: iset<uint64>, v: uint64)
    requires Ascending(rows) && 0 !in rows && RowsCover(Selection(e, arrays), rows) && i < |rows|
    requires Scope(rows, Backward, i, wanted)
    requires Answers(e, arrays, Backward, wanted, v) && (v != 0 ==> v in wanted)
    ensures var k := PreviousRow(Selection(e, arrays), rows, i); if v == 0 then k == -1 else 0 <= k < |rows| && rows[k] == v
  {
    var k := -1;
    if v != 0 {
      assert v in Selection(e, arrays);
      k :| 0 <= k < |rows| && rows[k] == v;
    }
    if i >= 0 {
      forall l | k < l <= i ensures !Selects(e, arrays, rows[l]) {
        assert rows[l] in wanted;
        assert v != 0 ==> rows[k] < rows[l];
      }
      PreviousRowIs(Selection(e, arrays), rows, i, k);
    }
  }

  // ----- binary searches

  ghost predicate RowsAreEntries(j: Journal, rows: seq<uint64>) {
    forall i :: 0 <= i < |rows| ==> rows[i] in j.entries
  }

  ghost predicate TimesAscend(j: Journal, rows: seq<uint64>) {
    && RowsAreEntries(j, rows)
    && (forall i, k :: 0 <= i < k < |rows| ==> j.entries[rows[i]].realtime <= j.entries[rows[k]].realtime)
  }

  lemma {:induction false} TimeIndexIs(j: Journal, rows: seq<uint64>, usec: uint64, after: bool, i: nat, k: nat)
    requires TimesAscend(j, rows) && i <= k <= |rows|
    requires k < |rows| ==> !EarlierRow(j.entries[rows[k]].realtime, usec, after)
    requires i < k ==> EarlierRow(j.entries[rows[k-1]].realtime, usec, after)
    ensures TimeIndex(j, rows, usec, after, i) == k
    decreases k - i
  {
    if i < k {
      TimeIndexIs(j, rows, usec, after, i + 1, k);
    }
  }

  method FilterRealtimeIndex(j: Journal, rows: seq<uint64>, usec: uint64, after: bool) returns (r: Result<nat>)
    ensures r.Ok? ==> r.value <= |rows|
    ensures TimesAscend(j, rows) ==> r == Ok(TimeIndex(j, rows, usec, after, 0))
  {
    var left, right := 0, |rows|;
    while left < right
      invariant 0 <= left <= right <= |rows|
      invariant left > 0 ==> rows[left-1] in j.entries && EarlierRow(j.entries[rows[left-1]].realtime, usec, after)
      invariant right < |rows| ==> rows[right] in j.entries && !EarlierRow(j.entries[rows[right]].realtime, usec, after)
    {
      var mid := left + (right - left) / 2;
      if rows[mid] !in j.entries {
        return Err(CorruptObject);
      }
      if EarlierRow(j.entries[rows[mid]].realtime, usec, after) {
        left := mid + 1;
      } else {
        right := mid;
      }
    }
    if TimesAscend(j, rows) {
      TimeIndexIs(j, rows, usec, after, 0, left);
    }
    return Ok(left);
  }

  /** The first index whose offset is not below `value`. */
  method SearchOffset(rows: seq<uint64>, value: uint64) returns (index: nat)
    ensures index <= |rows|
    ensures Ascending(rows) && value in rows ==> index < |rows| && rows[index] == value
  {
    var left, right := 0, |rows|;
    while left < right
      invariant 0 <= left <= right <= |rows|
      invariant left > 0 ==> rows[left-1] < value
      invariant right < |rows| ==> rows[right] >= value
    {
      var mid := left + (right - left) / 2;
      if rows[mid] >= value {
        right := mid;
      } else {
        left := mid + 1;
      }
    }
    index := left;
  }

  // ----- the reader

  /** Everything further along `dir` than `offset`. */
  ghost function EverythingPast(dir: Direction, offset: uint64): iset<uint64> {
    iset x: uint64 | Beyond(dir, x, offset) && x != offset
  }

  /** The row of `offset`: usually the neighbour of the last one; -2 when it is no row. */
  method LocateRow(rows: seq<uint64>, guess: int, offset: uint64) returns (index: int)
    ensures index == -2 || (0 <= index < |rows| && rows[index] == offset)
    ensures Ascending(rows) && offset in rows ==> index != -2
  {
    index := guess;
    if index < 0 || index >= |rows| || rows[index] != offset {
      index := SearchOffset(rows, offset);
    }
    if index >= |rows| || rows[index] != offset {
      index := -2;
    }
  }

  method Invalidate(e: Expr, arrays: Arrays)
    requires FilterExpr.Valid(e, arrays)
    modifies Leaves(e)
    ensures FilterExpr.Valid(e, arrays)
    decreases e
  {
    match e
    case Match(p) =>
      p.nodes, p.highest := [], 0;
      p.node, p.slot, p.value := -1, 0, p.inline;
    case False =>
    case _ =>
      for k := 0 to |e.parts|
        invariant FilterExpr.Valid(e, arrays)
      {
        LeavesAllocated(e);
        PartLeaves(e, k);
        Invalidate(e.parts[k], arrays);
      }
  }

  class FilteredReader {
    const journal: Journal
    const rows: seq<uint64>
    const expr: Expr
    var entryIndex: int
    var overrideOffset: uint64
    var realtimeSeek: Option<uint64>
    var walkValid: bool
    var backward: bool
    var walkOffset: uint64

    constructor (j: Journal, rows: seq<uint64>, expr: Expr)
      requires FilterExpr.Valid(expr, j.arrays)
      ensures journal == j && this.rows == rows && this.expr == expr
      ensures Valid() && At() == Row(-1)
    {
      journal, this.rows, this.expr := j, rows, expr;
      entryIndex, overrideOffset, realtimeSeek := -1, 0, None;
      walkValid, backward, walkOffset := false, false, 0;
    }

    ghost function WalkDir(): Direction
      reads this
    {
      if backward then Backward else Forward
    }

    /** A walk that may be continued has lost nothing past the entry it stands on. */
    ghost predicate Valid()
      reads this, Leaves(expr)
    {
      && FilterExpr.Valid(expr, journal.arrays)
      && -2 <= entryIndex <= |rows|
      && (entryIndex == -2 ==> overrideOffset != 0)
      && (walkValid && Healthy(expr, journal.arrays) ==>
            Covers(expr, journal.arrays, WalkDir(), EverythingPast(WalkDir(), walkOffset)))
    }

    ghost function At(): Position
      reads this
    {
      match realtimeSeek
      case Some(usec) => Sought(usec)
      case None => Row(entryIndex)
    }

    /** An intact file: its rows are ascending entries, every posting list is healthy, and
        whatever the filter selects is a row. Only a pending time seek needs times in order. */
    ghost predicate Intact()
      reads this
    {
      && Healthy(expr, journal.arrays) && RowsCover(Selection(expr, journal.arrays), rows)
      && Ascending(rows) && 0 !in rows && RowsAreEntries(journal, rows)
      && (realtimeSeek.Some? ==> TimesAscend(journal, rows))
      && entryIndex != -2
    }

    method SeekHead()
      requires Valid()
      modifies this
      ensures Valid() && At() == Row(-1) && (old(Intact()) ==> Intact())
    {
      LeavesAllocated(expr);
      entryIndex, realtimeSeek := -1, None;
    }

    method SeekTail()
      requires Valid()
      modifies this
      ensures Valid() && At() == Row(|rows|) && (old(Intact()) ==> Intact())
    {
      LeavesAllocated(expr);
      entryIndex, realtimeSeek := |rows|, None;
    }

    method SeekRealtime(usec: uint64)
      requires Valid()
      modifies this
      ensures Valid() && At() == Sought(usec) && (old(Intact()) && TimesAscend(journal, rows) ==> Intact())
    {
      LeavesAllocated(expr);
      entryIndex, realtimeSeek := -1, Some(usec);
    }

    /** Makes the walk ready to go on from the entry at `current`, restarting it where needed. */
    method ContinueWalk(dir: Direction, current: uint64)
      requires Valid() && current != 0
      modifies this`walkValid, this`walkOffset, this`backward, Leaves(expr)
      ensures Valid() && walkValid && backward == dir.Backward? && walkOffset == current
    {
      if !walkValid || backward != dir.Backward? || walkOffset != current {
        PrepareWalk(expr, journal.arrays, dir);
        StartCovers(expr, journal.arrays, dir, EverythingPast(dir, current));
        walkOffset, walkValid, backward := current, true, dir.Backward?;
      }
    }

    /** Continues or restarts the walk from the entry at `current`. */
    method SeekFromCurrent(dir: Direction, current: uint64) returns (r: Result<uint64>)
      requires Valid() && current != 0
      modifies this`walkValid, this`walkOffset, this`backward, Leaves(expr)
      ensures Valid()
      ensures Healthy(expr, journal.arrays) ==> Found(r, dir, EverythingPast(dir, current))
    {
      if dir.Forward? && current == MAX_U64 {
        assert EverythingPast(dir, current) == iset{};
        CoversNothing(expr, journal.arrays, dir);
        return Ok(0);
      }
      var needle: uint64 := if dir.Forward? then current + 1 else current - 1;
      ghost var wanted := EverythingPast(dir, current);
      assert AllBeyond(dir, wanted, needle);
      ContinueWalk(dir, current);
      r := Seek(expr, journal.arrays, needle, dir, wanted);
    }

    /** Starts a walk at one end of the file. */
    method SeekFromEdge(dir: Direction) returns (r: Result<uint64>)
      requires Valid()
      modifies this`walkValid, Leaves(expr)
      ensures Valid()
      ensures Healthy(expr, journal.arrays) ==> Found(r, dir, EverythingBeyond(dir, if dir.Forward? then 1 else MAX_U64))
    {
      var needle: uint64 := if dir.Forward? then 1 else MAX_U64;
      ghost var wanted := EverythingBeyond(dir, needle);
      walkValid := false;
      var ready := Reset(expr, journal.arrays, dir);
      if ready.Err? { return Err(ready.error); }
      StartCovers(expr, journal.arrays, dir, wanted);
      r := Seek(expr, journal.arrays, needle, dir, wanted);
    }

    /** Places the filter at row `index`, which a time search has picked. */
    method SeekFromRow(dir: Direction, index: nat) returns (r: Result<uint64>)
      requires Valid() && index < |rows|
      modifies this`walkValid, Leaves(expr)
      ensures Valid()
      ensures Healthy(expr, journal.arrays) ==> Found(r, dir, EverythingBeyond(dir, rows[index]))
    {
      walkValid := false;
      r := SeekFilterRealtime(expr, journal.arrays, rows[index], dir);
      if Healthy(expr, journal.arrays) {
        NearestAnswers(expr, journal.arrays, dir, rows[index], r.value);
      }
    }

    /** The search lost nothing of what is ahead of the reader's position. */
    ghost predicate SearchedAhead(r: Result<uint64>, dir: Direction, wanted: iset<uint64>)
      reads this, Leaves(expr)
    {
      && Closed(dir, wanted)
      && (Healthy(expr, journal.arrays) && r.Ok? ==> Found(r, dir, wanted))
      && (Intact() ==> r.Ok? && Scope(rows, dir, FirstRow(journal, rows, At(), dir), wanted))
    }

    /** There is nothing ahead. */
    lemma NothingAhead(dir: Direction)
      requires Intact() ==> Scope(rows, dir, FirstRow(journal, rows, At(), dir), iset{})
      ensures SearchedAhead(Ok(0), dir, iset{})
    {
      CoversNothing(expr, journal.arrays, dir);
    }

    /** The search after a time seek: from the row that the time picks. */
    method OffsetFromTime(dir: Direction) returns (r: Result<uint64>, ghost wanted: iset<uint64>)
      requires Valid() && realtimeSeek.Some?
      modifies this`walkValid, this`walkOffset, this`backward, Leaves(expr)
      ensures Valid() && SearchedAhead(r, dir, wanted)
    {
      wanted := iset{};
      LeavesAllocated(expr);
      var index := FilterRealtimeIndex(journal, rows, realtimeSeek.value, dir.Backward?);
      if index.Err? {
        r := Err(index.error);
      } else {
        var first: int := index.value;
        r, wanted := OffsetFromIndex(dir, if dir.Forward? then first else first - 1);
      }
    }

    /** The search from the row that a time search has picked, if it is one. */
    method OffsetFromIndex(dir: Direction, at: int) returns (r: Result<uint64>, ghost wanted: iset<uint64>)
      requires Valid() && realtimeSeek.Some?
      requires if dir.Forward? then at >= 0 else at < |rows|
      requires Intact() ==> at == FirstRow(journal, rows, At(), dir)
      modifies this`walkValid, this`walkOffset, this`backward, Leaves(expr)
      ensures Valid() && SearchedAhead(r, dir, wanted)
    {
      if at < 0 || at >= |rows| {
        wanted := iset{};
        NothingAhead(dir);
        r := Ok(0);
      } else {
        wanted := EverythingBeyond(dir, rows[at]);
        r := SeekFromRow(dir, at);
      }
    }

    /** The search from a position outside the rows: over all of them, or none. */
    method OffsetFromEdge(dir: Direction) returns (r: Result<uint64>, ghost wanted: iset<uint64>)
      requires Valid() && realtimeSeek.None? && entryIndex != -2 && !(0 <= entryIndex < |rows|)
      modifies this`walkValid, this`walkOffset, this`backward, Leaves(expr)
      ensures Valid() && SearchedAhead(r, dir, wanted)
    {
      wanted := iset{};
      LeavesAllocated(expr);
      if dir.Backward? == (entryIndex < 0) {
        NothingAhead(dir);
        return Ok(0), wanted;
      }
      wanted := EverythingBeyond(dir, if dir.Forward? then 1 else MAX_U64);
      r := SeekFromEdge(dir);
    }

    /** The search behind one step: picks the start from the reader's position. */
    method FilteredOffset(dir: Direction) returns (r: Result<uint64>, ghost wanted: iset<uint64>)
      requires Valid()
      modifies this`walkValid, this`walkOffset, this`backward, Leaves(expr)
      ensures Valid() && SearchedAhead(r, dir, wanted)
    {
      wanted := iset{};
      LeavesAllocated(expr);
      if |rows| == 0 && realtimeSeek.None? {
        NothingAhead(dir);
        return Ok(0), wanted;
      }
      if realtimeSeek.Some? {
        r, wanted := OffsetFromTime(dir);
      } else if (entryIndex < 0 && entryIndex != -2) || entryIndex >= |rows| {
        r, wanted := OffsetFromEdge(dir);
      } else {
        var current := if entryIndex == -2 then overrideOffset else rows[entryIndex];
        if current == 0 {
          return Err(CorruptObject), wanted;
        }
        wanted := EverythingPast(dir, current);
        r := SeekFromCurrent(dir, current);
      }
    }

    /** Forgets what the walk has loaded, after an error. */
    method InvalidateWalk()
      requires Valid()
      modifies this`walkValid, Leaves(expr)
      ensures Valid()
    {
      walkValid := false;
      Invalidate(expr, journal.arrays);
    }

    /** One step. On an intact file it leads where stepping row by row leads: to the next or
        previous selected row, or nowhere, and then the position stays. */
    method Step(dir: Direction) returns (r: Result<bool>)
      requires Valid()
      modifies this, Leaves(expr)
      ensures Valid()
      ensures old(Intact()) ==> Intact() && r.Ok?
      ensures old(Intact()) ==> (At(), r.value) == StepRow(Selection(expr, journal.arrays), journal, rows, old(At()), dir)
    {
      var value, wanted := FilteredOffset(dir);
      if value.Err? {
        InvalidateWalk();
        return Err(value.error);
      }
      var offset := value.value;
      if Intact() {
        AnswerIsRow(expr, journal, rows, At(), dir, wanted, offset);
      }
      if offset == 0 {
        return Ok(false);
      }
      LeavesAllocated(expr);
      var index := LocateRow(rows, if dir.Forward? then entryIndex + 1 else entryIndex - 1, offset);
      if offset !in journal.entries {
        InvalidateWalk();
        return Err(CorruptObject);
      }
      Land(dir, index, offset, wanted);
      return Ok(true);
    }

    /** One operation leads where it leads row by row; only a time seek needs times in order. */
    method Operate(op: Operation) returns (r: Result<bool>)
      requires Valid() && Intact() && (op.ToTime? ==> TimesAscend(journal, rows))
      modifies this, Leaves(expr)
      ensures Valid() && Intact() && r.Ok?
      ensures (At(), r.value) == OperateRow(Selection(expr, journal.arrays), journal, rows, old(At()), op)
    {
      match op
      case Move(dir) => r := Step(dir);
      case ToHead => SeekHead(); r := Ok(true);
      case ToTail => SeekTail(); r := Ok(true);
      case ToTime(usec) => SeekRealtime(usec); r := Ok(true);
    }

    /** Makes the found entry the current one. */
    method Land(dir: Direction, index: int, offset: uint64, ghost wanted: iset<uint64>)
      requires Valid() && -2 <= index <= |rows| && offset != 0 && Closed(dir, wanted)
      requires Healthy(expr, journal.arrays) ==> Covers(expr, journal.arrays, dir, wanted) && offset in wanted
      modifies this
      ensures Valid() && entryIndex == index && realtimeSeek == None
    {
      LeavesAllocated(expr);
      if Healthy(expr, journal.arrays) {
        assert EverythingPast(dir, offset) <= wanted;
        CoversLess(expr, journal.arrays, dir, wanted, EverythingPast(dir, offset));
      }
      entryIndex, overrideOffset, realtimeSeek := index, offset, None;
      walkOffset, walkValid, backward := offset, true, dir.Backward?;
    }

    /** A search over `wanted` has succeeded and lost nothing of it. */
    ghost predicate Found(r: Result<uint64>, dir: Direction, wanted: iset<uint64>)
      reads this, Leaves(expr)
    {
      && r.Ok? && Answers(expr, journal.arrays, dir, wanted, r.value)
      && (r.value != 0 ==> r.value in wanted)
      && Covers(expr, journal.arrays, dir, wanted)
    }
  }

  lemma NearestAnswers(e: Expr, arrays: Arrays, dir: Direction, needle: uint64, v: uint64)
    requires Nearest(e, arrays, dir, needle, v)
    ensures Answers(e, arrays, dir, EverythingBeyond(dir, needle), v)
    ensures v != 0 ==> v in EverythingBeyond(dir, needle)
  {
  }
}
