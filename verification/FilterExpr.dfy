/** The AND/OR tree of posting cursors and its leapfrog search (go/journal/reader_filter.go).

    A cursor only moves one way, so inside an AND it may run ahead of the needle its parent
    later asks for. The invariant that survives is relative: `Covers(e, dir, R)` says that no
    entry of R is lost, where an AND hands its parts only those entries of R that all of its
    parts select. */
module FilterExpr {
  import opened JournalGraph
  import opened FilterCursor

  datatype Expr = Match(posting: PostingCursor) | And(parts: seq<Expr>) | Or(parts: seq<Expr>) | False

  ghost function Leaves(e: Expr): set<PostingCursor> {
    match e
    case Match(p) => {p}
    case And(parts) => set i, p | 0 <= i < |parts| && p in Leaves(parts[i]) :: p
    case Or(parts) => set i, p | 0 <= i < |parts| && p in Leaves(parts[i]) :: p
    case False => {}
  }

  /** Every cursor occurs once, and no AND or OR is empty. */
  ghost predicate WellFormed(e: Expr) {
    match e
    case Match(p) => true
    case And(parts) => Separate(parts) && forall i :: 0 <= i < |parts| ==> WellFormed(parts[i])
    case Or(parts) => Separate(parts) && forall i :: 0 <= i < |parts| ==> WellFormed(parts[i])
    case False => true
  }

  ghost predicate Separate(parts: seq<Expr>) {
    parts != [] && forall i, j :: 0 <= i < j < |parts| ==> Leaves(parts[i]) !! Leaves(parts[j])
  }

  ghost predicate Valid(e: Expr, arrays: Arrays)
    reads Leaves(e)
  {
    WellFormed(e) && forall p :: p in Leaves(e) ==> p.Valid(arrays)
  }

  ghost predicate Healthy(e: Expr, arrays: Arrays) {
    forall p :: p in Leaves(e) ==> p.Healthy(arrays)
  }

  /** The meaning of an expression: which entries it selects. */
  ghost predicate Selects(e: Expr, arrays: Arrays, x: uint64) {
    match e
    case Match(p) => x in p.List(arrays)
    case And(parts) => forall i :: 0 <= i < |parts| ==> Selects(parts[i], arrays, x)
    case Or(parts) => exists i :: 0 <= i < |parts| && Selects(parts[i], arrays, x)
    case False => false
  }

  ghost function Selected(e: Expr, arrays: Arrays, entries: iset<uint64>): iset<uint64> {
    iset x | x in entries && Selects(e, arrays, x)
  }

  /** No entry of `wanted` that `e` could select has been passed by a cursor. */
  ghost predicate Covers(e: Expr, arrays: Arrays, dir: Direction, wanted: iset<uint64>)
    reads Leaves(e)
    decreases e, 1
  {
    match e
    case Match(p) => CursorCovers(p, arrays, dir, wanted)
    case And(parts) => PartsCover(e, arrays, dir, Selected(e, arrays, wanted))
    case Or(parts) => PartsCover(e, arrays, dir, wanted)
    case False => true
  }

  ghost predicate PartsCover(e: Expr, arrays: Arrays, dir: Direction, wanted: iset<uint64>)
    requires e.And? || e.Or?
    reads Leaves(e)
    decreases e, 0
  {
    forall i :: 0 <= i < |e.parts| ==> Covers(e.parts[i], arrays, dir, wanted)
  }

  ghost predicate CursorCovers(p: PostingCursor, arrays: Arrays, dir: Direction, wanted: iset<uint64>)
    reads p
  {
    ListCovers(p.List(arrays), dir, wanted, p.Pos())
  }

  ghost predicate AllBeyond(dir: Direction, wanted: iset<uint64>, needle: uint64) {
    forall x :: x in wanted ==> Beyond(dir, x, needle)
  }

  /** `v` is the nearest entry of `wanted` that `e` selects, or 0 when there is none. */
  ghost predicate Answers(e: Expr, arrays: Arrays, dir: Direction, wanted: iset<uint64>, v: uint64) {
    if v == 0 then forall x :: x in wanted ==> !Selects(e, arrays, x)
    else Selects(e, arrays, v) && forall x :: x in wanted && Selects(e, arrays, x) ==> Beyond(dir, x, v)
  }

  lemma {:induction false} CoversLess(e: Expr, arrays: Arrays, dir: Direction, wanted: iset<uint64>, fewer: iset<uint64>)
    requires Covers(e, arrays, dir, wanted) && fewer <= wanted
    ensures Covers(e, arrays, dir, fewer)
    decreases e
  {
    match e
    case Match(p) =>
    case False =>
    case And(parts) =>
      forall i | 0 <= i < |parts| ensures Covers(parts[i], arrays, dir, Selected(e, arrays, fewer)) {
        CoversLess(parts[i], arrays, dir, Selected(e, arrays, wanted), Selected(e, arrays, fewer));
      }
    case Or(parts) =>
      forall i | 0 <= i < |parts| ensures Covers(parts[i], arrays, dir, fewer) {
        CoversLess(parts[i], arrays, dir, wanted, fewer);
      }
  }

  lemma PartLeaves(e: Expr, k: nat)
    requires (e.And? || e.Or?) && k < |e.parts|
    ensures Leaves(e.parts[k]) <= Leaves(e)
  {
    forall p | p in Leaves(e.parts[k]) ensures p in Leaves(e) {
    }
  }

  lemma LeavesAllocated(e: Expr)
    ensures forall p :: p in Leaves(e) ==> allocated(p)
  {
  }

  /** Searches a single cursor. */
  method SeekMatch(p: PostingCursor, arrays: Arrays, needle: uint64, dir: Direction, ghost wanted: iset<uint64>)
    returns (r: Result<uint64>)
    requires p.Valid(arrays)
    modifies p
    ensures p.Valid(arrays)
    ensures r.Ok? && r.value != 0 ==> Beyond(dir, r.value, needle)
    ensures p.Healthy(arrays) && old(CursorCovers(p, arrays, dir, wanted)) && AllBeyond(dir, wanted, needle) ==>
              && r.Ok? && CursorCovers(p, arrays, dir, wanted)
              && Answers(Match(p), arrays, dir, wanted, r.value)
  {
    ghost var from := p.Pos();
    r := p.Seek(arrays, needle, dir);
    if p.Healthy(arrays) && old(CursorCovers(p, arrays, dir, wanted)) && AllBeyond(dir, wanted, needle) && p.count > 0 {
      NothingLost(p.List(arrays), dir, wanted, from, p.Pos(), needle);
      NearestFound(p.List(arrays), dir, wanted, p.Pos(), needle, r.value);
    }
  }

  /** Nothing of `wanted` lies before position `pos`. */
  ghost predicate ListCovers(list: seq<uint64>, dir: Direction, wanted: iset<uint64>, pos: int) {
    forall i :: 0 <= i < |list| && !Beyond(dir, i, pos) ==> list[i] !in wanted
  }

  lemma NothingLost(list: seq<uint64>, dir: Direction, wanted: iset<uint64>, from: int, to: int, needle: uint64)
    requires ListCovers(list, dir, wanted, from) && AllBeyond(dir, wanted, needle)
    requires PostingCursor.NonePassed(list, dir, from, to, needle)
    ensures ListCovers(list, dir, wanted, to)
  {
    forall i | 0 <= i < |list| && !Beyond(dir, i, to) ensures list[i] !in wanted {
      assert !Beyond(dir, i, from) || !Beyond(dir, list[i], needle);
    }
  }

  lemma NearestFound(list: seq<uint64>, dir: Direction, wanted: iset<uint64>, pos: int, needle: uint64, v: uint64)
    requires ListCovers(list, dir, wanted, pos) && AllBeyond(dir, wanted, needle) && Ascending(list) && 0 <= pos < |list|
    requires v != 0 ==> v == list[pos]
    requires v == 0 ==> pos == (if dir.Forward? then |list| - 1 else 0) && !Beyond(dir, list[pos], needle)
    ensures forall x :: x in wanted && x in list ==> v != 0 && Beyond(dir, x, v)
  {
    forall x | x in wanted && x in list ensures v != 0 && Beyond(dir, x, v) {
      var i :| 0 <= i < |list| && list[i] == x;
      assert Beyond(dir, i, pos);
    }
  }

  method Seek(e: Expr, arrays: Arrays, needle: uint64, dir: Direction, ghost wanted: iset<uint64>)
    returns (r: Result<uint64>)
    requires Valid(e, arrays)
    modifies Leaves(e)
    ensures Valid(e, arrays)
    ensures r.Ok? && r.value != 0 ==> Beyond(dir, r.value, needle)
    ensures Healthy(e, arrays) && old(Covers(e, arrays, dir, wanted)) && AllBeyond(dir, wanted, needle) ==>
              && r.Ok? && Covers(e, arrays, dir, wanted)
              && Answers(e, arrays, dir, wanted, r.value)
    decreases e, 2
  {
    match e
    case Match(p) =>
      r := SeekMatch(p, arrays, needle, dir, wanted);
    case False =>
      r := Ok(0);
    case And(parts) =>
      r := SeekAnd(e, arrays, needle, dir, wanted);
    case Or(parts) =>
      r := SeekOr(e, arrays, needle, dir, wanted);
  }

  /** Searches one part; the cursors of the other parts stay where they are. */
  method SeekPart(e: Expr, arrays: Arrays, k: nat, needle: uint64, dir: Direction, ghost wanted: iset<uint64>)
    returns (r: Result<uint64>)
    requires (e.And? || e.Or?) && k < |e.parts| && Valid(e, arrays)
    modifies Leaves(e)
    ensures Valid(e, arrays)
    ensures r.Ok? && r.value != 0 ==> Beyond(dir, r.value, needle)
    ensures Healthy(e, arrays) && old(PartsCover(e, arrays, dir, wanted)) && AllBeyond(dir, wanted, needle) ==>
              && r.Ok? && PartsCover(e, arrays, dir, wanted)
              && Answers(e.parts[k], arrays, dir, wanted, r.value)
    decreases e, 0
  {
    LeavesAllocated(e);
    r := Seek(e.parts[k], arrays, needle, dir, wanted);
    if Healthy(e, arrays) && old(PartsCover(e, arrays, dir, wanted)) && AllBeyond(dir, wanted, needle) {
      forall i | 0 <= i < |e.parts| ensures Covers(e.parts[i], arrays, dir, wanted) {
        if i != k {
          assert old(Covers(e.parts[i], arrays, dir, wanted));
          assert Leaves(e.parts[i]) !! Leaves(e.parts[k]);
          PartLeaves(e, i);
        }
      }
    }
  }

  /** Nothing in `wanted` that one of the first `k` parts selects comes before `best`. */
  ghost predicate BestOf(e: Expr, arrays: Arrays, k: nat, dir: Direction, wanted: iset<uint64>, best: uint64)
    requires e.Or? && k <= |e.parts|
  {
    forall j, x :: 0 <= j < k && x in wanted && Selects(e.parts[j], arrays, x) ==> best != 0 && Beyond(dir, x, best)
  }

  lemma BestOfStep(e: Expr, arrays: Arrays, k: nat, dir: Direction, wanted: iset<uint64>, before: uint64, value: uint64, best: uint64)
    requires e.Or? && k < |e.parts| && BestOf(e, arrays, k, dir, wanted, before)
    requires Answers(e.parts[k], arrays, dir, wanted, value)
    requires best == (if value != 0 && (before == 0 || Beyond(dir, before, value)) then value else before)
    ensures BestOf(e, arrays, k + 1, dir, wanted, best)
    ensures value != 0 ==> Selects(e, arrays, value)
  {
  }

  function Better(dir: Direction, best: uint64, value: uint64): uint64 {
    if value != 0 && (best == 0 || (dir.Forward? && value < best) || (dir.Backward? && value > best)) then value else best
  }

  /** `best` is selected, and nothing that one of the first `k` parts selects comes before it. */
  ghost predicate BestSoFar(e: Expr, arrays: Arrays, k: nat, dir: Direction, wanted: iset<uint64>, best: uint64)
    requires e.Or? && k <= |e.parts|
  {
    (best != 0 ==> Selects(e, arrays, best)) && BestOf(e, arrays, k, dir, wanted, best)
  }

  lemma BestAnswers(e: Expr, arrays: Arrays, dir: Direction, wanted: iset<uint64>, best: uint64)
    requires e.Or? && BestSoFar(e, arrays, |e.parts|, dir, wanted, best)
    ensures Answers(e, arrays, dir, wanted, best)
  {
  }

  lemma BestNext(e: Expr, arrays: Arrays, k: nat, dir: Direction, wanted: iset<uint64>, best: uint64, value: uint64)
    requires e.Or? && k < |e.parts| && BestSoFar(e, arrays, k, dir, wanted, best) && Answers(e.parts[k], arrays, dir, wanted, value)
    ensures BestSoFar(e, arrays, k + 1, dir, wanted, Better(dir, best, value))
  {
    BestOfStep(e, arrays, k, dir, wanted, best, value, Better(dir, best, value));
  }

  method SeekOr(e: Expr, arrays: Arrays, needle: uint64, dir: Direction, ghost wanted: iset<uint64>)
    returns (r: Result<uint64>)
    requires e.Or? && Valid(e, arrays)
    modifies Leaves(e)
    ensures Valid(e, arrays)
    ensures r.Ok? && r.value != 0 ==> Beyond(dir, r.value, needle)
    ensures Healthy(e, arrays) && old(PartsCover(e, arrays, dir, wanted)) && AllBeyond(dir, wanted, needle) ==>
              && r.Ok? && PartsCover(e, arrays, dir, wanted)
              && Answers(e, arrays, dir, wanted, r.value)
    decreases e, 1
  {
    ghost var pre := Healthy(e, arrays) && PartsCover(e, arrays, dir, wanted) && AllBeyond(dir, wanted, needle);
    var best: uint64 := 0;
    for k := 0 to |e.parts|
      invariant Valid(e, arrays) && (best != 0 ==> Beyond(dir, best, needle))
      invariant pre ==> PartsCover(e, arrays, dir, wanted) && BestSoFar(e, arrays, k, dir, wanted, best)
    {
      var value := SeekPart(e, arrays, k, needle, dir, wanted);
      if value.Err? { return value; }
      if pre { BestNext(e, arrays, k, dir, wanted, best, value.value); }
      best := Better(dir, best, value.value);
    }
    if pre {
      BestAnswers(e, arrays, dir, wanted, best);
    }
    return Ok(best);
  }

  /** The parts visited by the first `i` probes of a round: from the front when walking
      forward, from the back when walking backward. */
  function PartIndex(n: nat, dir: Direction, i: nat): (index: nat)
    requires i < n
    ensures index < n
  {
    if dir.Forward? then i else n - 1 - i
  }

  /** The first `i` parts probed in a round select `at`. */
  ghost predicate Agreed(e: Expr, arrays: Arrays, dir: Direction, at: uint64, i: nat)
    requires e.And? && i <= |e.parts|
  {
    forall k :: 0 <= k < i ==> Selects(e.parts[PartIndex(|e.parts|, dir, k)], arrays, at)
  }

  /** One probe moves on to the first entry that its part selects, or ends the search. */
  lemma Probed(e: Expr, arrays: Arrays, dir: Direction, wanted: iset<uint64>, previous: uint64, at: uint64, i: nat, v: uint64)
    requires e.And? && i < |e.parts| && Beyond(dir, at, previous) && (v != 0 ==> Beyond(dir, v, at))
    requires Answers(e.parts[PartIndex(|e.parts|, dir, i)], arrays, dir, Selected(e, arrays, wanted), v)
    requires at == previous ==> Agreed(e, arrays, dir, at, i)
    ensures v == 0 ==> Answers(e, arrays, dir, wanted, 0)
    ensures v != 0 ==> AllBeyond(dir, Selected(e, arrays, wanted), v)
    ensures v != 0 && v == previous ==> Agreed(e, arrays, dir, v, i + 1)
  {
    var part := e.parts[PartIndex(|e.parts|, dir, i)];
    assert forall x :: x in Selected(e, arrays, wanted) ==> Selects(part, arrays, x);
  }

  /** A round that all parts agree on has found the answer. */
  lemma AllAgreed(e: Expr, arrays: Arrays, dir: Direction, wanted: iset<uint64>, at: uint64)
    requires e.And? && Agreed(e, arrays, dir, at, |e.parts|) && AllBeyond(dir, Selected(e, arrays, wanted), at) && at != 0
    ensures Answers(e, arrays, dir, wanted, at)
  {
    forall k | 0 <= k < |e.parts| ensures Selects(e.parts[k], arrays, at) {
      assert e.parts[PartIndex(|e.parts|, dir, PartIndex(|e.parts|, dir, k))] == e.parts[k];
    }
    assert forall x :: x in wanted && Selects(e, arrays, x) ==> x in Selected(e, arrays, wanted);
  }

  method SeekAnd(e: Expr, arrays: Arrays, needle: uint64, dir: Direction, ghost wanted: iset<uint64>)
    returns (r: Result<uint64>)
    requires e.And? && Valid(e, arrays)
    modifies Leaves(e)
    ensures Valid(e, arrays)
    ensures r.Ok? && r.value != 0 ==> Beyond(dir, r.value, needle)
    ensures Healthy(e, arrays) && old(PartsCover(e, arrays, dir, Selected(e, arrays, wanted))) && AllBeyond(dir, wanted, needle) ==>
              && r.Ok? && PartsCover(e, arrays, dir, Selected(e, arrays, wanted))
              && Answers(e, arrays, dir, wanted, r.value)
    decreases e, 1
  {
    ghost var common := Selected(e, arrays, wanted);
    ghost var pre := Healthy(e, arrays) && PartsCover(e, arrays, dir, common) && AllBeyond(dir, wanted, needle);
    var at := needle;
    while true
      invariant Valid(e, arrays)
      invariant Beyond(dir, at, needle)
      invariant pre ==> PartsCover(e, arrays, dir, common) && AllBeyond(dir, common, at)
      decreases if dir.Forward? then MAX_U64 - at else at
    {
      var previous := at;
      for i := 0 to |e.parts|
        invariant Valid(e, arrays)
        invariant Beyond(dir, at, previous) && (i > 0 ==> at != 0)
        invariant pre ==> PartsCover(e, arrays, dir, common) && AllBeyond(dir, common, at)
        invariant pre && at == previous ==> Agreed(e, arrays, dir, at, i)
      {
        var index := PartIndex(|e.parts|, dir, i);
        var value := SeekPart(e, arrays, index, at, dir, common);
        if pre { Probed(e, arrays, dir, wanted, previous, at, i, value.value); }
        if value.Err? || value.value == 0 {
          return value;
        }
        at := value.value;
      }
      if at == previous {
        if pre { AllAgreed(e, arrays, dir, wanted, at); }
        return Ok(at);
      }
    }
  }

  // ----- starting a walk

  ghost predicate AtStart(p: PostingCursor, dir: Direction)
    reads p
  {
    p.count > 0 ==> p.Pos() == if dir.Forward? then 0 else p.count - 1
  }

  ghost predicate AllAtStart(e: Expr, dir: Direction)
    reads Leaves(e)
  {
    forall p :: p in Leaves(e) ==> AtStart(p, dir)
  }

  /** A walk that has just started has lost nothing. */
  lemma {:induction false} StartCovers(e: Expr, arrays: Arrays, dir: Direction, wanted: iset<uint64>)
    requires AllAtStart(e, dir)
    ensures Covers(e, arrays, dir, wanted)
    decreases e
  {
    match e
    case Match(p) => assert AtStart(p, dir);
    case False =>
    case And(parts) =>
      forall i | 0 <= i < |parts| ensures Covers(parts[i], arrays, dir, Selected(e, arrays, wanted)) {
        PartLeaves(e, i);
        StartCovers(parts[i], arrays, dir, Selected(e, arrays, wanted));
      }
    case Or(parts) =>
      forall i | 0 <= i < |parts| ensures Covers(parts[i], arrays, dir, wanted) {
        PartLeaves(e, i);
        StartCovers(parts[i], arrays, dir, wanted);
      }
  }

  method Reset(e: Expr, arrays: Arrays, dir: Direction) returns (r: Result<bool>)
    requires Valid(e, arrays)
    modifies Leaves(e)
    ensures Valid(e, arrays)
    ensures Healthy(e, arrays) ==> r.Ok?
    ensures r.Ok? ==> AllAtStart(e, dir)
    decreases e, 2
  {
    match e
    case Match(p) =>
      r := p.Reset(arrays, dir);
    case False =>
      r := Ok(true);
    case _ =>
      r := ResetParts(e, arrays, dir);
  }

  method ResetPart(e: Expr, arrays: Arrays, k: nat, dir: Direction) returns (r: Result<bool>)
    requires (e.And? || e.Or?) && k < |e.parts| && Valid(e, arrays)
    modifies Leaves(e)
    ensures Valid(e, arrays)
    ensures Healthy(e, arrays) ==> r.Ok?
    ensures r.Ok? ==> AllAtStart(e.parts[k], dir)
    ensures forall j :: 0 <= j < |e.parts| && j != k && old(AllAtStart(e.parts[j], dir)) ==> AllAtStart(e.parts[j], dir)
    decreases e, 0
  {
    LeavesAllocated(e);
    PartLeaves(e, k);
    r := Reset(e.parts[k], arrays, dir);
    forall j | 0 <= j < |e.parts| && j != k && old(AllAtStart(e.parts[j], dir)) ensures AllAtStart(e.parts[j], dir) {
      PartLeaves(e, j);
      assert Leaves(e.parts[j]) !! Leaves(e.parts[k]);
    }
  }

  method ResetParts(e: Expr, arrays: Arrays, dir: Direction) returns (r: Result<bool>)
    requires (e.And? || e.Or?) && Valid(e, arrays)
    modifies Leaves(e)
    ensures Valid(e, arrays)
    ensures Healthy(e, arrays) ==> r.Ok?
    ensures r.Ok? ==> AllAtStart(e, dir)
    decreases e, 1
  {
    for k := 0 to |e.parts|
      invariant Valid(e, arrays)
      invariant forall j :: 0 <= j < k ==> AllAtStart(e.parts[j], dir)
    {
      var part := ResetPart(e, arrays, k, dir);
      if part.Err? { return part; }
    }
    r := Ok(true);
  }

  /** Starts a walk without reading anything: a backward cursor resolves its end on first use. */
  method PrepareWalk(e: Expr, arrays: Arrays, dir: Direction)
    requires Valid(e, arrays)
    modifies Leaves(e)
    ensures Valid(e, arrays)
    ensures AllAtStart(e, dir)
    decreases e, 2
  {
    match e
    case Match(p) =>
      p.node, p.slot, p.value := -1, 0, p.inline;
      if dir.Backward? {
        p.node, p.value := -2, 0;
      }
    case False =>
    case _ =>
      PrepareParts(e, arrays, dir);
  }

  method PreparePart(e: Expr, arrays: Arrays, k: nat, dir: Direction)
    requires (e.And? || e.Or?) && k < |e.parts| && Valid(e, arrays)
    modifies Leaves(e)
    ensures Valid(e, arrays)
    ensures AllAtStart(e.parts[k], dir)
    ensures forall j :: 0 <= j < |e.parts| && j != k && old(AllAtStart(e.parts[j], dir)) ==> AllAtStart(e.parts[j], dir)
    decreases e, 0
  {
    LeavesAllocated(e);
    PartLeaves(e, k);
    PrepareWalk(e.parts[k], arrays, dir);
    forall j | 0 <= j < |e.parts| && j != k && old(AllAtStart(e.parts[j], dir)) ensures AllAtStart(e.parts[j], dir) {
      PartLeaves(e, j);
      assert Leaves(e.parts[j]) !! Leaves(e.parts[k]);
    }
  }

  method PrepareParts(e: Expr, arrays: Arrays, dir: Direction)
    requires (e.And? || e.Or?) && Valid(e, arrays)
    modifies Leaves(e)
    ensures Valid(e, arrays)
    ensures AllAtStart(e, dir)
    decreases e, 1
  {
    for k := 0 to |e.parts|
      invariant Valid(e, arrays)
      invariant forall j :: 0 <= j < k ==> AllAtStart(e.parts[j], dir)
    {
      PreparePart(e, arrays, k, dir);
    }
  }

  // ----- what a whole walk returns

  ghost function EverythingBeyond(dir: Direction, needle: uint64): iset<uint64> {
    iset x: uint64 | Beyond(dir, x, needle)
  }

  /** The row-by-row meaning of a search: the nearest selected entry at or beyond `needle`. */
  ghost predicate Nearest(e: Expr, arrays: Arrays, dir: Direction, needle: uint64, v: uint64) {
    if v == 0 then forall x: uint64 :: Beyond(dir, x, needle) ==> !Selects(e, arrays, x)
    else
      && Selects(e, arrays, v) && Beyond(dir, v, needle)
      && forall x: uint64 :: Beyond(dir, x, needle) && Selects(e, arrays, x) ==> Beyond(dir, x, v)
  }

  lemma NearestUnique(e: Expr, arrays: Arrays, dir: Direction, needle: uint64, v: uint64, w: uint64)
    requires Nearest(e, arrays, dir, needle, v) && Nearest(e, arrays, dir, needle, w)
    ensures v == w
  {
    assert v != 0 ==> Beyond(dir, v, needle) && Selects(e, arrays, v);
    assert w != 0 ==> Beyond(dir, w, needle) && Selects(e, arrays, w);
  }

  ghost predicate Monotone(dir: Direction, needles: seq<uint64>) {
    forall i, j :: 0 <= i < j < |needles| ==> Beyond(dir, needles[j], needles[i])
  }

  /** Searches a walk that has lost nothing at or beyond `needle`. */
  method SeekNearest(e: Expr, arrays: Arrays, needle: uint64, dir: Direction) returns (r: Result<uint64>)
    requires Valid(e, arrays)
    modifies Leaves(e)
    ensures Valid(e, arrays)
    ensures Healthy(e, arrays) && old(Covers(e, arrays, dir, EverythingBeyond(dir, needle))) ==>
              && r.Ok? && Nearest(e, arrays, dir, needle, r.value)
              && Covers(e, arrays, dir, EverythingBeyond(dir, needle))
  {
    ghost var wanted := EverythingBeyond(dir, needle);
    r := Seek(e, arrays, needle, dir, wanted);
    assert forall x: uint64 :: x in wanted <==> Beyond(dir, x, needle);
  }

  /** Any run of searches whose needles move along `dir` answers every one of them exactly. */
  method SeekRun(e: Expr, arrays: Arrays, dir: Direction, needles: seq<uint64>) returns (found: seq<uint64>)
    requires Valid(e, arrays) && Healthy(e, arrays)
    requires Monotone(dir, needles)
    modifies Leaves(e)
    ensures |found| == |needles| && NearestAll(e, arrays, dir, needles, found)
  {
    found := [];
    if needles == [] { return; }
    PrepareWalk(e, arrays, dir);
    StartCovers(e, arrays, dir, EverythingBeyond(dir, needles[0]));
    for k := 0 to |needles|
      invariant Valid(e, arrays) && |found| == k && NearestAll(e, arrays, dir, needles, found)
      invariant k < |needles| ==> Covers(e, arrays, dir, EverythingBeyond(dir, needles[k]))
    {
      var r := SeekNearest(e, arrays, needles[k], dir);
      NearestNext(e, arrays, dir, needles, found, r.value);
      found := found + [r.value];
      if k + 1 < |needles| {
        CoversLater(e, arrays, dir, needles[k], needles[k+1]);
      }
    }
  }

  /** Each of the answers so far is the nearest to its needle. */
  ghost predicate NearestAll(e: Expr, arrays: Arrays, dir: Direction, needles: seq<uint64>, found: seq<uint64>) {
    |found| <= |needles| && forall k :: 0 <= k < |found| ==> Nearest(e, arrays, dir, needles[k], found[k])
  }

  lemma NearestNext(e: Expr, arrays: Arrays, dir: Direction, needles: seq<uint64>, found: seq<uint64>, v: uint64)
    requires NearestAll(e, arrays, dir, needles, found) && |found| < |needles| && Nearest(e, arrays, dir, needles[|found|], v)
    ensures NearestAll(e, arrays, dir, needles, found + [v])
  {
  }

  lemma CoversLater(e: Expr, arrays: Arrays, dir: Direction, needle: uint64, later: uint64)
    requires Covers(e, arrays, dir, EverythingBeyond(dir, needle)) && Beyond(dir, later, needle)
    ensures Covers(e, arrays, dir, EverythingBeyond(dir, later))
  {
    CoversLess(e, arrays, dir, EverythingBeyond(dir, needle), EverythingBeyond(dir, later));
  }
}
