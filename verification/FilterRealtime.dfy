/** Placing a filter at an arbitrary entry by binary search inside each array node
    (go/journal/reader_filter_realtime.go). It answers like a linear walk from the start and
    leaves cursors from which the ordinary search in the same direction stays exact. */
module FilterRealtime {
  import opened JournalGraph
  import opened FilterCursor
  import opened FilterExpr

  /** `v` is passed on the way to `needle`: a backward search stops after an equal value. */
  predicate Before(dir: Direction, v: uint64, needle: uint64) {
    v < needle || (dir.Backward? && v == needle)
  }

  /** The postings before slot `left` of a stretch come before the needle, those from `right` on do not. */
  ghost predicate Bracketed(list: seq<uint64>, start: nat, length: nat, needle: uint64, dir: Direction, left: nat, right: nat) {
    && left <= right <= length
    && (left > 0 ==> Before(dir, PostingAt(list, start + left - 1), needle))
    && (right < length ==> !Before(dir, PostingAt(list, start + right), needle))
  }

  lemma Bisected(list: seq<uint64>, start: nat, length: nat, needle: uint64, dir: Direction, left: nat, right: nat, mid: nat, v: uint64)
    requires Bracketed(list, start, length, needle, dir, left, right) && left <= mid < right && v == PostingAt(list, start + mid)
    ensures if Before(dir, v, needle) then Bracketed(list, start, length, needle, dir, mid + 1, right)
            else Bracketed(list, start, length, needle, dir, left, mid)
  {
  }

  function Middle(left: nat, right: nat): (mid: nat)
    requires left < right
    ensures left <= mid < right
  {
    left + (right - left) / 2
  }

  /** The number of leading slots of node `k` that come before the needle. */
  method SearchNode(p: PostingCursor, arrays: Arrays, k: nat, needle: uint64, dir: Direction) returns (r: Result<nat>)
    requires p.Valid(arrays) && k < |p.nodes|
    ensures r.Ok? ==> r.value <= p.nodes[k].length
    ensures p.Healthy(arrays) ==> r.Ok?
    ensures r.Ok? ==>
              var list, start := p.List(arrays), p.count - p.nodes[k].remaining;
              && (r.value > 0 ==> Before(dir, PostingAt(list, start + r.value - 1), needle))
              && (r.value < p.nodes[k].length ==> !Before(dir, PostingAt(list, start + r.value), needle))
  {
    ghost var list, start := p.List(arrays), p.count - p.nodes[k].remaining;
    var left, right := 0, p.nodes[k].length;
    p.AdjacentNodes(arrays, k);
    while left < right
      invariant Bracketed(list, start, p.nodes[k].length, needle, dir, left, right)
    {
      var mid := Middle(left, right);
      var value := p.ReadSlot(arrays, k, mid);
      if value.Err? { return Err(value.error); }
      Bisected(list, start, p.nodes[k].length, needle, dir, left, right, mid, value.value);
      if Before(dir, value.value, needle) {
        left := mid + 1;
      } else {
        right := mid;
      }
    }
    return Ok(left);
  }

  /** Where a placed cursor stands: at the first posting not before the needle when walking
      forward, at the last one before it when walking backward, clamped to the list. */
  ghost predicate Placed(list: seq<uint64>, dir: Direction, needle: uint64, pos: int) {
    && 0 <= pos < |list|
    && (dir.Forward? ==> (pos > 0 ==> list[pos-1] < needle) && (list[pos] >= needle || pos == |list| - 1))
    && (dir.Backward? ==> (pos + 1 < |list| ==> list[pos+1] > needle) && (list[pos] <= needle || pos == 0))
  }

  lemma PlacedCovers(p: PostingCursor, arrays: Arrays, dir: Direction, needle: uint64)
    requires p.Healthy(arrays) && p.count > 0
    requires Placed(p.List(arrays), dir, needle, p.Pos())
    ensures CursorCovers(p, arrays, dir, EverythingBeyond(dir, needle))
  {
    var list, pos := p.List(arrays), p.Pos();
    forall i | 0 <= i < |list| && !Beyond(dir, i, pos) ensures !Beyond(dir, list[i], needle) {
      assert dir.Forward? ==> list[i] <= list[pos-1];
      assert dir.Backward? ==> list[i] >= list[pos+1];
    }
  }

  lemma PlacedNearest(p: PostingCursor, arrays: Arrays, dir: Direction, needle: uint64, v: uint64)
    requires p.Healthy(arrays) && p.count > 0
    requires Placed(p.List(arrays), dir, needle, p.Pos())
    requires v == if Beyond(dir, p.List(arrays)[p.Pos()], needle) then p.List(arrays)[p.Pos()] else 0
    ensures Nearest(Match(p), arrays, dir, needle, v)
  {
    NearestInList(p.List(arrays), dir, needle, p.Pos(), v);
  }

  lemma NearestInList(list: seq<uint64>, dir: Direction, needle: uint64, pos: int, v: uint64)
    requires Ascending(list) && 0 !in list && Placed(list, dir, needle, pos)
    requires v == if Beyond(dir, list[pos], needle) then list[pos] else 0
    ensures v != 0 ==> v in list && Beyond(dir, v, needle)
    ensures forall x: uint64 :: Beyond(dir, x, needle) && x in list ==> v != 0 && Beyond(dir, x, v)
  {
    forall x: uint64 | Beyond(dir, x, needle) && x in list ensures v != 0 && Beyond(dir, x, v) {
      var i :| 0 <= i < |list| && list[i] == x;
      PlacedAhead(list, dir, needle, pos, i);
    }
  }

  lemma PlacedAhead(list: seq<uint64>, dir: Direction, needle: uint64, pos: int, i: nat)
    requires Ascending(list) && 0 !in list && Placed(list, dir, needle, pos) && i < |list| && Beyond(dir, list[i], needle)
    ensures Beyond(dir, i, pos) && Beyond(dir, list[i], list[pos]) && Beyond(dir, list[pos], needle) && list[pos] != 0
  {
  }

  /** One node of the placement walk: the cursor stands on the posting just before the node. */
  ghost predicate ReachedNode(p: PostingCursor, arrays: Arrays, k: nat, needle: uint64, dir: Direction)
    reads p
  {
    && p.Valid(arrays) && p.value != 0 && Before(dir, p.value, needle)
    && p.node == k - 1 && k <= |p.nodes|
    && (k > 0 ==> p.slot == p.nodes[k-1].length - 1 && !LastNode(p.nodes[k-1]))
  }

  method SeekRealtimeCursor(p: PostingCursor, arrays: Arrays, needle: uint64, dir: Direction) returns (r: Result<uint64>)
    requires p.Valid(arrays)
    modifies p
    ensures p.Valid(arrays)
    ensures r.Ok? && r.value != 0 ==> Beyond(dir, r.value, needle)
    ensures p.Healthy(arrays) ==>
              && r.Ok? && Nearest(Match(p), arrays, dir, needle, r.value)
              && CursorCovers(p, arrays, dir, EverythingBeyond(dir, needle))
  {
    p.node, p.slot, p.value := -1, 0, p.inline;
    if p.count == 0 {
      return Ok(0);
    }
    if dir.Forward? && p.inline >= needle {
      r := Ok(p.inline);
    } else if dir.Backward? && p.inline > needle {
      r := Ok(0);
    } else if p.count == 1 {
      r := Ok(if dir.Backward? then p.inline else 0);
    } else {
      r := PlaceInNodes(p, arrays, needle, dir);
    }
    if p.Healthy(arrays) {
      PlacedCovers(p, arrays, dir, needle);
      PlacedNearest(p, arrays, dir, needle, r.value);
    }
  }

  method PlaceInNodes(p: PostingCursor, arrays: Arrays, needle: uint64, dir: Direction) returns (r: Result<uint64>)
    requires p.count >= 2 && ReachedNode(p, arrays, 0, needle, dir)
    modifies p
    ensures p.Valid(arrays)
    ensures r.Ok? && r.value != 0 ==> Beyond(dir, r.value, needle)
    ensures p.Healthy(arrays) ==>
              && r.Ok? && Placed(p.List(arrays), dir, needle, p.Pos())
              && r.value == if Beyond(dir, p.List(arrays)[p.Pos()], needle) then p.List(arrays)[p.Pos()] else 0
  {
    var index := 0;
    while true
      invariant ReachedNode(p, arrays, index, needle, dir)
      decreases |p.Nodes(arrays)| - index
    {
      if index == |p.nodes| {
        var a := p.AppendNode(arrays);
        if a.Err? { return Err(a.error); }
      }
      var done: bool;
      r, done := PlaceInNode(p, arrays, index, needle, dir);
      if done { return; }
      index := index + 1;
    }
  }

  /** The placement is final: `v` is what the cursor answers. */
  ghost predicate PlacedWith(p: PostingCursor, arrays: Arrays, needle: uint64, dir: Direction, v: uint64)
    reads p
  {
    && Placed(p.List(arrays), dir, needle, p.Pos())
    && v == if Beyond(dir, p.List(arrays)[p.Pos()], needle) then p.List(arrays)[p.Pos()] else 0
  }

  method PlaceInNode(p: PostingCursor, arrays: Arrays, index: nat, needle: uint64, dir: Direction)
    returns (r: Result<uint64>, done: bool)
    requires p.count >= 2 && ReachedNode(p, arrays, index, needle, dir) && index < |p.nodes|
    modifies p`node, p`slot, p`value
    ensures p.Valid(arrays)
    ensures !done ==> ReachedNode(p, arrays, index + 1, needle, dir)
    ensures done && r.Ok? && r.value != 0 ==> Beyond(dir, r.value, needle)
    ensures p.Healthy(arrays) && done ==> r.Ok? && PlacedWith(p, arrays, needle, dir, r.value)
  {
    var node := p.nodes[index];
    p.AdjacentNodes(arrays, index);
    p.PosInList(arrays);
    var left := SearchNode(p, arrays, index, needle, dir);
    if left.Err? { return Err(left.error), true; }
    if dir.Backward? && left.value == 0 {
      return Ok(p.value), true;
    }
    r, done := PlaceAround(p, arrays, index, left.value, needle, dir);
  }

  /** Stands on a slot, whose posting is then the cursor's value. */
  method Stand(p: PostingCursor, arrays: Arrays, index: nat, slot: nat) returns (r: Result<bool>)
    requires p.Valid(arrays) && p.count >= 2 && index < |p.nodes| && slot < p.nodes[index].length
    modifies p`node, p`slot, p`value
    ensures p.Valid(arrays)
    ensures r.Err? ==> !p.Healthy(arrays)
    ensures r.Ok? ==> p.node == index && p.slot == slot && p.Pos() == p.count - p.nodes[index].remaining + slot
    ensures r.Ok? ==> 0 <= p.Pos() < |p.List(arrays)| && p.value == p.List(arrays)[p.Pos()] != 0
  {
    r := p.MoveTo(arrays, index, slot);
    p.PosInList(arrays);
  }

  /** Places the cursor around slot `left` of a node. */
  method PlaceAround(p: PostingCursor, arrays: Arrays, index: nat, left: nat, needle: uint64, dir: Direction)
    returns (r: Result<uint64>, done: bool)
    requires p.Valid(arrays) && p.count >= 2 && index < |p.nodes| && left <= p.nodes[index].length && (dir.Backward? ==> left > 0)
    requires var list, start := p.List(arrays), p.count - p.nodes[index].remaining;
             && start > 0 && p.nodes[index].length > 0 && Before(dir, PostingAt(list, start + left - 1), needle)
             && (left < p.nodes[index].length ==> !Before(dir, PostingAt(list, start + left), needle))
    modifies p`node, p`slot, p`value
    ensures p.Valid(arrays)
    ensures !done ==> ReachedNode(p, arrays, index + 1, needle, dir)
    ensures done && r.Ok? && r.value != 0 ==> Beyond(dir, r.value, needle)
    ensures p.Healthy(arrays) && done ==> r.Ok? && PlacedWith(p, arrays, needle, dir, r.value)
  {
    var node := p.nodes[index];
    var slot := if dir.Backward? || left == node.length then left - 1 else left;
    var moved := Stand(p, arrays, index, slot);
    r, done := Ok(0), moved.Err? || left < node.length || node.remaining == node.length;
    if moved.Err? {
      r := Err(moved.error);
    } else {
      StoodRight(p, arrays, index, left, needle, dir);
      if done && (left < node.length || dir.Backward?) { r := Ok(p.value); }
    }
  }

  /** What the slot that a placed cursor stands on says about the answer. */
  lemma StoodRight(p: PostingCursor, arrays: Arrays, index: nat, left: nat, needle: uint64, dir: Direction)
    requires p.Valid(arrays) && p.count >= 2 && index < |p.nodes| && left <= p.nodes[index].length
    requires p.Pos() == p.count - p.nodes[index].remaining + (if dir.Backward? || left == p.nodes[index].length then left - 1 else left)
    requires 0 <= p.Pos() < |p.List(arrays)| && p.value == p.List(arrays)[p.Pos()]
    requires var list, start := p.List(arrays), p.count - p.nodes[index].remaining;
             && Before(dir, PostingAt(list, start + left - 1), needle)
             && (left < p.nodes[index].length ==> !Before(dir, PostingAt(list, start + left), needle))
    ensures left < p.nodes[index].length || dir.Backward? ==> Beyond(dir, p.value, needle)
    ensures left == p.nodes[index].length ==> Before(dir, p.value, needle)
    ensures p.Healthy(arrays) && (left < p.nodes[index].length || LastNode(p.nodes[index])) ==>
              PlacedWith(p, arrays, needle, dir, if left < p.nodes[index].length || dir.Backward? then p.value else 0)
  {
    var node := p.nodes[index];
    p.AdjacentNodes(arrays, index);
    if p.Healthy(arrays) && (left < node.length || LastNode(node)) {
      PlacedIn(p.List(arrays), dir, needle, p.count - node.remaining, node.length, left, p.Pos());
    }
    AnswerIn(p.List(arrays), dir, needle, p.count - node.remaining, node.length, left, p.Pos());
  }

  lemma AnswerIn(list: seq<uint64>, dir: Direction, needle: uint64, start: int, length: nat, left: nat, pos: int)
    requires left <= length && 0 <= pos < |list| && pos == start + (if dir.Backward? || left == length then left - 1 else left)
    requires Before(dir, PostingAt(list, start + left - 1), needle)
    requires left < length ==> !Before(dir, PostingAt(list, start + left), needle)
    ensures left < length || dir.Backward? ==> Beyond(dir, list[pos], needle)
  {
  }

  /** Where the search of one node places the cursor: around the first slot not before the needle,
      or at the end of the list. */
  lemma PlacedIn(list: seq<uint64>, dir: Direction, needle: uint64, start: nat, length: nat, left: nat, pos: int)
    requires Ascending(list) && 0 < start && left <= length && 0 < length && start + length <= |list|
    requires Before(dir, list[start + left - 1], needle)
    requires if left < length then !Before(dir, list[start + left], needle) else start + length == |list|
    requires pos == start + (if dir.Backward? || left == length then left - 1 else left)
    ensures Placed(list, dir, needle, pos)
    ensures Beyond(dir, list[pos], needle) <==> left < length || dir.Backward?
  {
  }

  lemma {:induction false} CoversNothing(e: Expr, arrays: Arrays, dir: Direction)
    ensures Covers(e, arrays, dir, iset{})
    decreases e
  {
    match e
    case Match(p) =>
    case False =>
    case And(parts) =>
      assert Selected(e, arrays, iset{}) == iset{};
      forall i | 0 <= i < |parts| ensures Covers(parts[i], arrays, dir, iset{}) {
        CoversNothing(parts[i], arrays, dir);
      }
    case Or(parts) =>
      forall i | 0 <= i < |parts| ensures Covers(parts[i], arrays, dir, iset{}) {
        CoversNothing(parts[i], arrays, dir);
      }
  }

  /** Places a whole expression at `needle`. */
  method SeekFilterRealtime(e: Expr, arrays: Arrays, needle: uint64, dir: Direction) returns (r: Result<uint64>)
    requires FilterExpr.Valid(e, arrays)
    modifies Leaves(e)
    ensures FilterExpr.Valid(e, arrays)
    ensures r.Ok? && r.value != 0 ==> Beyond(dir, r.value, needle)
    ensures Healthy(e, arrays) ==>
              && r.Ok? && Nearest(e, arrays, dir, needle, r.value)
              && Covers(e, arrays, dir, EverythingBeyond(dir, needle))
    decreases e, 3
  {
    match e
    case Match(p) =>
      r := SeekRealtimeCursor(p, arrays, needle, dir);
    case False =>
      r := Ok(0);
    case And(parts) =>
      r := RealtimeAnd(e, arrays, needle, dir);
    case Or(parts) =>
      r := RealtimeOr(e, arrays, needle, dir);
  }

  method RealtimePart(e: Expr, arrays: Arrays, k: nat, needle: uint64, dir: Direction, ghost kept: iset<uint64>)
    returns (r: Result<uint64>)
    requires (e.And? || e.Or?) && k < |e.parts| && FilterExpr.Valid(e, arrays)
    modifies Leaves(e)
    ensures FilterExpr.Valid(e, arrays)
    ensures r.Ok? && r.value != 0 ==> Beyond(dir, r.value, needle)
    ensures Healthy(e, arrays) ==>
              && r.Ok? && Nearest(e.parts[k], arrays, dir, needle, r.value)
              && Covers(e.parts[k], arrays, dir, EverythingBeyond(dir, needle))
    ensures forall j :: 0 <= j < |e.parts| && j != k && old(Covers(e.parts[j], arrays, dir, kept)) ==>
              Covers(e.parts[j], arrays, dir, kept)
    decreases e, 0
  {
    LeavesAllocated(e);
    PartLeaves(e, k);
    r := SeekFilterRealtime(e.parts[k], arrays, needle, dir);
    forall j | 0 <= j < |e.parts| && j != k && old(Covers(e.parts[j], arrays, dir, kept))
      ensures Covers(e.parts[j], arrays, dir, kept)
    {
      PartLeaves(e, j);
      assert Leaves(e.parts[j]) !! Leaves(e.parts[k]);
    }
  }

  /** The first `k` parts of an OR lost nothing, and their best answer is `best`. */
  ghost predicate OrSoFar(e: Expr, arrays: Arrays, k: nat, dir: Direction, wanted: iset<uint64>, best: uint64)
    requires e.Or? && k <= |e.parts|
    reads Leaves(e)
  {
    (forall i :: 0 <= i < k ==> Covers(e.parts[i], arrays, dir, wanted)) && BestSoFar(e, arrays, k, dir, wanted, best)
  }

  lemma OrNext(e: Expr, arrays: Arrays, k: nat, dir: Direction, needle: uint64, best: uint64, value: uint64)
    requires e.Or? && k < |e.parts|
    requires BestSoFar(e, arrays, k, dir, EverythingBeyond(dir, needle), best) && Nearest(e.parts[k], arrays, dir, needle, value)
    requires forall i :: 0 <= i <= k ==> Covers(e.parts[i], arrays, dir, EverythingBeyond(dir, needle))
    ensures OrSoFar(e, arrays, k + 1, dir, EverythingBeyond(dir, needle), Better(dir, best, value))
  {
    BestNext(e, arrays, k, dir, EverythingBeyond(dir, needle), best, value);
  }

  lemma OrAnswers(e: Expr, arrays: Arrays, dir: Direction, needle: uint64, best: uint64)
    requires e.Or? && OrSoFar(e, arrays, |e.parts|, dir, EverythingBeyond(dir, needle), best) && (best != 0 ==> Beyond(dir, best, needle))
    ensures Nearest(e, arrays, dir, needle, best) && Covers(e, arrays, dir, EverythingBeyond(dir, needle))
  {
    BestAnswers(e, arrays, dir, EverythingBeyond(dir, needle), best);
    AnswersNearest(e, arrays, dir, needle, best);
  }

  method RealtimeOr(e: Expr, arrays: Arrays, needle: uint64, dir: Direction) returns (r: Result<uint64>)
    requires e.Or? && FilterExpr.Valid(e, arrays)
    modifies Leaves(e)
    ensures FilterExpr.Valid(e, arrays)
    ensures r.Ok? && r.value != 0 ==> Beyond(dir, r.value, needle)
    ensures Healthy(e, arrays) ==>
              && r.Ok? && Nearest(e, arrays, dir, needle, r.value)
              && Covers(e, arrays, dir, EverythingBeyond(dir, needle))
    decreases e, 1, 1
  {
    r := Ok(0);
    for k := 0 to |e.parts|
      invariant FilterExpr.Valid(e, arrays) && r.Ok? && (r.value != 0 ==> Beyond(dir, r.value, needle))
      invariant Healthy(e, arrays) ==> OrSoFar(e, arrays, k, dir, EverythingBeyond(dir, needle), r.value)
    {
      r := RealtimeOrPart(e, arrays, k, needle, dir, r.value);
      if r.Err? { return; }
    }
    if Healthy(e, arrays) { OrAnswers(e, arrays, dir, needle, r.value); }
  }

  /** Places one more part of an OR; the best answer so far is `best`. */
  method RealtimeOrPart(e: Expr, arrays: Arrays, k: nat, needle: uint64, dir: Direction, best: uint64) returns (r: Result<uint64>)
    requires e.Or? && k < |e.parts| && FilterExpr.Valid(e, arrays) && (best != 0 ==> Beyond(dir, best, needle))
    requires Healthy(e, arrays) ==> OrSoFar(e, arrays, k, dir, EverythingBeyond(dir, needle), best)
    modifies Leaves(e)
    ensures FilterExpr.Valid(e, arrays)
    ensures r.Ok? && r.value != 0 ==> Beyond(dir, r.value, needle)
    ensures Healthy(e, arrays) ==> r.Ok? && OrSoFar(e, arrays, k + 1, dir, EverythingBeyond(dir, needle), r.value)
    decreases e, 1, 0
  {
    r := RealtimePart(e, arrays, k, needle, dir, EverythingBeyond(dir, needle));
    if r.Ok? {
      if Healthy(e, arrays) { OrNext(e, arrays, k, dir, needle, best, r.value); }
      r := Ok(Better(dir, best, r.value));
    }
  }

  lemma AnswersNearest(e: Expr, arrays: Arrays, dir: Direction, needle: uint64, v: uint64)
    requires Answers(e, arrays, dir, EverythingBeyond(dir, needle), v)
    requires v != 0 ==> Beyond(dir, v, needle)
    ensures Nearest(e, arrays, dir, needle, v)
  {
    assert forall x: uint64 :: x in EverythingBeyond(dir, needle) <==> Beyond(dir, x, needle);
  }

  /** The first probes of an AND narrow the needle; `at` is how far they have taken it. */
  ghost predicate Narrowed(e: Expr, arrays: Arrays, dir: Direction, needle: uint64, at: uint64, i: nat)
    requires e.And? && i <= |e.parts|
    reads Leaves(e)
  {
    var common := Selected(e, arrays, EverythingBeyond(dir, needle));
    && Beyond(dir, at, needle) && (i > 0 ==> at != 0)
    && AllBeyond(dir, common, at)
    && (forall j {:trigger PartIndex(|e.parts|, dir, j)} :: 0 <= j < i ==>
          var part := e.parts[PartIndex(|e.parts|, dir, j)];
          Covers(part, arrays, dir, common) && (at == needle ==> Selects(part, arrays, at)))
  }

  method NarrowOnce(e: Expr, arrays: Arrays, needle: uint64, at: uint64, i: nat, dir: Direction) returns (r: Result<uint64>)
    requires e.And? && i < |e.parts| && FilterExpr.Valid(e, arrays)
    modifies Leaves(e)
    ensures FilterExpr.Valid(e, arrays)
    ensures r.Ok? && r.value != 0 ==> Beyond(dir, r.value, at)
    ensures Healthy(e, arrays) && old(Narrowed(e, arrays, dir, needle, at, i)) ==>
              && r.Ok?
              && (r.value != 0 ==> Narrowed(e, arrays, dir, needle, r.value, i + 1))
              && (r.value == 0 ==> Selected(e, arrays, EverythingBeyond(dir, needle)) == iset{})
    decreases e, 1
  {
    ghost var common := Selected(e, arrays, EverythingBeyond(dir, needle));
    var index := PartIndex(|e.parts|, dir, i);
    r := RealtimePart(e, arrays, index, at, dir, common);
    if Healthy(e, arrays) && old(Narrowed(e, arrays, dir, needle, at, i)) {
      CoversLess(e.parts[index], arrays, dir, EverythingBeyond(dir, at), common);
    }
  }

  method RealtimeAnd(e: Expr, arrays: Arrays, needle: uint64, dir: Direction) returns (r: Result<uint64>)
    requires e.And? && FilterExpr.Valid(e, arrays)
    modifies Leaves(e)
    ensures FilterExpr.Valid(e, arrays)
    ensures r.Ok? && r.value != 0 ==> Beyond(dir, r.value, needle)
    ensures Healthy(e, arrays) ==>
              && r.Ok? && Nearest(e, arrays, dir, needle, r.value)
              && Covers(e, arrays, dir, EverythingBeyond(dir, needle))
    decreases e, 2
  {
    ghost var wanted := EverythingBeyond(dir, needle);
    ghost var common := Selected(e, arrays, wanted);
    ghost var good := Healthy(e, arrays);
    var at := needle;
    for i := 0 to |e.parts|
      invariant FilterExpr.Valid(e, arrays)
      invariant Beyond(dir, at, needle) && (i > 0 ==> at != 0)
      invariant good ==> Narrowed(e, arrays, dir, needle, at, i)
    {
      var candidate := NarrowOnce(e, arrays, needle, at, i, dir);
      if candidate.Err? || candidate.value == 0 {
        if good {
          EmptyIntersection(e, arrays, dir, needle);
        }
        return candidate;
      }
      at := candidate.value;
    }
    if good {
      NarrowedAll(e, arrays, dir, needle, at);
    }
    if at == needle {
      return Ok(at);
    }
    r := SeekAnd(e, arrays, at, dir, EverythingBeyond(dir, at));
    if good {
      assert Selected(e, arrays, EverythingBeyond(dir, at)) == common;
    }
  }

  lemma EmptyIntersection(e: Expr, arrays: Arrays, dir: Direction, needle: uint64)
    requires e.And? && Selected(e, arrays, EverythingBeyond(dir, needle)) == iset{}
    ensures Nearest(e, arrays, dir, needle, 0) && Covers(e, arrays, dir, EverythingBeyond(dir, needle))
  {
    forall i | 0 <= i < |e.parts| ensures Covers(e.parts[i], arrays, dir, iset{}) {
      CoversNothing(e.parts[i], arrays, dir);
    }
    forall x: uint64 | Beyond(dir, x, needle) ensures !Selects(e, arrays, x) {
      assert x !in Selected(e, arrays, EverythingBeyond(dir, needle));
    }
  }

  /** After a full round every part covers the intersection, and a needle that did not move
      is selected by all of them. */
  lemma NarrowedAll(e: Expr, arrays: Arrays, dir: Direction, needle: uint64, at: uint64)
    requires e.And? && e.parts != [] && Narrowed(e, arrays, dir, needle, at, |e.parts|)
    ensures Covers(e, arrays, dir, EverythingBeyond(dir, needle))
    ensures Selected(e, arrays, EverythingBeyond(dir, at)) == Selected(e, arrays, EverythingBeyond(dir, needle))
    ensures at == needle ==> Nearest(e, arrays, dir, needle, at)
  {
    var n := |e.parts|;
    forall k | 0 <= k < n
      ensures Covers(e.parts[k], arrays, dir, Selected(e, arrays, EverythingBeyond(dir, needle)))
      ensures at == needle ==> Selects(e.parts[k], arrays, at)
    {
      assert PartIndex(n, dir, PartIndex(n, dir, k)) == k;
    }
  }
}
