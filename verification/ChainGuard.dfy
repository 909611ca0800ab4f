/** The guard that every chain walk carries against corrupt, cyclic links
    (go/journal/chain_guard.go, go/journal/array_chain.go). Links that follow the expected
    order cost nothing; from the first link that does not, the guard keeps one checkpoint and
    moves it at every power of two, as in Brent's cycle detection. */
module ChainGuard {
  import opened JournalGraph
  import opened Bits

  // ----- one advance

  datatype Guard = Guard(checkpoint: uint64, steps: uint64)

  const FRESH := Guard(0, 0)

  predicate Ordered(current: uint64, next: uint64, descending: bool) {
    if descending then next < current else next > current
  }

  datatype Verdict = Verdict(accepted: bool, guard: Guard)

  /** One advance of Brent's schedule: the checkpoint moves whenever the count of links since
      the order broke is a power of two. */
  ghost function Advanced(g: Guard, current: uint64, next: uint64, descending: bool): Verdict {
    if next == 0 || (g.steps == 0 && Ordered(current, next, descending)) then Verdict(true, g)
    else
      var started := if g.steps == 0 then Guard(current, 1) else g;
      if next == started.checkpoint || started.steps == MAX_U64 then Verdict(false, started)
      else
        var steps := started.steps + 1;
        Verdict(true, Guard(if IsPow2(steps) then next else started.checkpoint, steps))
  }

  class ChainGuard {
    var checkpoint: uint64
    var steps: uint64

    constructor ()
      ensures State() == FRESH
    {
      checkpoint, steps := 0, 0;
    }

    function State(): Guard
      reads this
    {
      Guard(checkpoint, steps)
    }

    method Advance(current: uint64, next: uint64, descending: bool) returns (accepted: bool)
      modifies this
      ensures Verdict(accepted, State()) == Advanced(old(State()), current, next, descending)
    {
      if next == 0 {
        return true;
      }
      if steps == 0 && ((descending && next < current) || (!descending && next > current)) {
        return true;
      }
      accepted := AdvanceUnordered(current, next);
    }

    method AdvanceUnordered(current: uint64, next: uint64) returns (accepted: bool)
      requires next != 0
      modifies this
      ensures accepted ==> steps != 0
      ensures forall descending :: !(old(steps) == 0 && Ordered(current, next, descending)) ==>
                Verdict(accepted, State()) == Advanced(old(State()), current, next, descending)
    {
      if steps == 0 {
        checkpoint := current;
        steps := 1;
      }
      if next == checkpoint || steps == MAX_U64 {
        return false;
      }
      steps := steps + 1;
      PowerOfTwoTest(steps);
      if BitAnd(steps, steps - 1) == 0 {
        checkpoint := next;
      }
      return true;
    }
  }

  // ----- whole walks over a fixed link function

  /** The link stored at each offset; an offset without one ends the chain. */
  type Links = map<uint64, uint64>

  function Next(link: Links, offset: uint64): uint64 {
    if offset in link then link[offset] else 0
  }

  ghost function Node(link: Links, head: uint64, k: nat): uint64 {
    if k == 0 then head else Next(link, Node(link, head, k - 1))
  }

  /** The guard after its first `k` advances. */
  ghost function GuardAt(link: Links, head: uint64, descending: bool, k: nat): Guard {
    if k == 0 then FRESH
    else Advanced(GuardAt(link, head, descending, k - 1), Node(link, head, k - 1), Node(link, head, k), descending).guard
  }

  /** The walk takes link `k`, from node `k` to node `k + 1`. */
  ghost predicate Accepts(link: Links, head: uint64, descending: bool, k: nat) {
    Advanced(GuardAt(link, head, descending, k), Node(link, head, k), Node(link, head, k + 1), descending).accepted
  }

  /** The first `k` nodes are real and their links were taken. */
  ghost predicate Passes(link: Links, head: uint64, descending: bool, k: nat) {
    && (forall i :: 0 <= i < k ==> Node(link, head, i) != 0)
    && (forall i :: 0 <= i < k ==> Accepts(link, head, descending, i))
  }

  /** The walk is still under way at node `k`: it met no end and no rejection before. */
  ghost predicate Reaches(link: Links, head: uint64, descending: bool, k: nat) {
    Passes(link, head, descending, k) && Node(link, head, k) != 0
  }

  ghost predicate OrderedLink(link: Links, head: uint64, descending: bool, i: nat) {
    Ordered(Node(link, head, i), Node(link, head, i + 1), descending)
  }

  ghost predicate OrderedUntil(link: Links, head: uint64, descending: bool, k: nat) {
    forall i :: 0 <= i < k ==> OrderedLink(link, head, descending, i)
  }

  /** How the guard's counters describe the walk: `start` is where the order first broke. */
  ghost predicate Tracks(link: Links, head: uint64, descending: bool, g: Guard, k: nat, start: nat, power: nat) {
    && start < k && g.steps == k - start + 1
    && OrderedUntil(link, head, descending, start)
    && !OrderedLink(link, head, descending, start)
    && Pow2(power) <= g.steps < 2 * Pow2(power)
    && g.checkpoint == Node(link, head, start + Pow2(power) - 1)
  }

  lemma {:induction false} Pow2Unique(a: nat, b: nat, n: nat)
    requires Pow2(a) <= n < 2 * Pow2(a) && Pow2(b) <= n < 2 * Pow2(b)
    ensures a == b
  {
    if a < b { Pow2Grows(a, b); } else if b < a { Pow2Grows(b, a); }
  }

  lemma {:induction false} Pow2Grows(a: nat, b: nat)
    requires a < b
    ensures 2 * Pow2(a) <= Pow2(b)
  {
    if a + 1 < b { Pow2Grows(a, b - 1); }
  }

  ghost predicate Tracked(link: Links, head: uint64, descending: bool, g: Guard, k: nat) {
    if g.steps == 0 then OrderedUntil(link, head, descending, k)
    else exists start: nat, power: nat :: Tracks(link, head, descending, g, k, start, power)
  }

  lemma TrackStep(link: Links, head: uint64, descending: bool, before: Guard, k: nat, start: nat, power: nat, v: Verdict)
    requires Tracks(link, head, descending, before, k, start, power)
    requires Node(link, head, k + 1) != 0
    requires v == Advanced(before, Node(link, head, k), Node(link, head, k + 1), descending) && v.accepted
    ensures Tracked(link, head, descending, v.guard, k + 1)
  {
    var steps := before.steps + 1;
    var power' := power;
    if IsPow2(steps) {
      power' :| steps == Pow2(power');
      assert power' > 0;
      Pow2Unique(power' - 1, power, before.steps);
    } else {
      assert steps != Pow2(power + 1);
    }
    assert Tracks(link, head, descending, v.guard, k + 1, start, power');
  }

  lemma TrackFirst(link: Links, head: uint64, descending: bool, before: Guard, k: nat, v: Verdict)
    requires before.steps == 0 && OrderedUntil(link, head, descending, k)
    requires Node(link, head, k + 1) != 0
    requires v == Advanced(before, Node(link, head, k), Node(link, head, k + 1), descending) && v.accepted
    ensures Tracked(link, head, descending, v.guard, k + 1)
  {
    if OrderedLink(link, head, descending, k) {
    } else {
      assert Pow2(1) == 2;
      assert Tracks(link, head, descending, v.guard, k + 1, k, 1);
    }
  }

  lemma {:induction false} Track(link: Links, head: uint64, descending: bool, k: nat)
    requires Reaches(link, head, descending, k)
    ensures Tracked(link, head, descending, GuardAt(link, head, descending, k), k)
  {
    if k > 0 {
      Track(link, head, descending, k - 1);
      assert Accepts(link, head, descending, k - 1);
      var before := GuardAt(link, head, descending, k - 1);
      var v := Advanced(before, Node(link, head, k - 1), Node(link, head, k), descending);
      if before.steps != 0 {
        var start: nat, power: nat :| Tracks(link, head, descending, before, k - 1, start, power);
        TrackStep(link, head, descending, before, k - 1, start, power, v);
      } else {
        TrackFirst(link, head, descending, before, k - 1, v);
      }
    }
  }

  /** A rejected link leads back to a node the walk has already visited. */
  lemma RejectsOnlyRevisits(link: Links, head: uint64, descending: bool, k: nat) returns (j: nat)
    requires Reaches(link, head, descending, k) && !Accepts(link, head, descending, k)
    requires k + 1 < MAX_U64
    ensures j <= k && Node(link, head, j) == Node(link, head, k + 1)
  {
    Track(link, head, descending, k);
    var g := GuardAt(link, head, descending, k);
    j := k;
    if g.steps != 0 {
      var start: nat, power: nat :| Tracks(link, head, descending, g, k, start, power);
      j := start + Pow2(power) - 1;
    }
  }

  lemma {:induction false} AroundCycle(link: Links, head: uint64, tail: nat, cycle: nat, k: nat)
    requires Node(link, head, tail + cycle) == Node(link, head, tail) && k >= tail
    ensures Node(link, head, k + cycle) == Node(link, head, k)
    decreases k
  {
    if k > tail { AroundCycle(link, head, tail, cycle, k - 1); }
  }

  lemma {:induction false} OrderedClimbs(link: Links, head: uint64, descending: bool, k: nat, i: nat, j: nat)
    requires OrderedUntil(link, head, descending, k) && i < j <= k
    ensures Ordered(Node(link, head, i), Node(link, head, j), descending)
    decreases j
  {
    assert OrderedLink(link, head, descending, j - 1);
    if i < j - 1 { OrderedClimbs(link, head, descending, k, i, j - 1); }
  }

  lemma {:induction false} PowerAbove(m: nat) returns (p: nat)
    requires m >= 1
    ensures m <= Pow2(p) < 2 * m
  {
    if m == 1 { p := 0; }
    else {
      p := PowerAbove(m - 1);
      if Pow2(p) < m { p := p + 1; }
    }
  }

  /** The order breaks at most once as far as the guard is concerned. */
  lemma BreakUnique(link: Links, head: uint64, descending: bool, a: nat, b: nat)
    requires OrderedUntil(link, head, descending, a) && OrderedUntil(link, head, descending, b)
    requires !OrderedLink(link, head, descending, a)
    requires !OrderedLink(link, head, descending, b)
    ensures a == b
  {
  }

  /** Where the checkpoint stands when the walk has come to node `k`. */
  lemma CheckpointAt(link: Links, head: uint64, descending: bool, k: nat, start: nat, p: nat)
    requires Reaches(link, head, descending, k) && start < k
    requires OrderedUntil(link, head, descending, start) && !OrderedLink(link, head, descending, start)
    requires Pow2(p) <= k - start + 1 < 2 * Pow2(p)
    ensures GuardAt(link, head, descending, k).steps != 0
    ensures GuardAt(link, head, descending, k).checkpoint == Node(link, head, start + Pow2(p) - 1)
  {
    Track(link, head, descending, k);
    CheckpointOf(link, head, descending, GuardAt(link, head, descending, k), k, start, p);
  }

  lemma CheckpointOf(link: Links, head: uint64, descending: bool, g: Guard, k: nat, start: nat, p: nat)
    requires Tracked(link, head, descending, g, k) && start < k
    requires OrderedUntil(link, head, descending, start) && !OrderedLink(link, head, descending, start)
    requires Pow2(p) <= k - start + 1 < 2 * Pow2(p)
    ensures g.steps != 0 && g.checkpoint == Node(link, head, start + Pow2(p) - 1)
  {
    assert g.steps != 0;
    var start': nat, power: nat :| Tracks(link, head, descending, g, k, start', power);
    BreakUnique(link, head, descending, start, start');
    Pow2Unique(p, power, g.steps);
  }

  lemma RejectsCheckpoint(link: Links, head: uint64, descending: bool, k: nat)
    requires Node(link, head, k + 1) != 0 && GuardAt(link, head, descending, k).steps != 0
    requires GuardAt(link, head, descending, k).checkpoint == Node(link, head, k + 1)
    ensures !Accepts(link, head, descending, k)
  {
  }

  /** The link at which the moving checkpoint meets the cycle. */
  lemma MeetsCheckpoint(link: Links, head: uint64, descending: bool, tail: nat, cycle: nat, start: nat, p: nat)
    requires cycle >= 1 && Node(link, head, tail + cycle) == Node(link, head, tail)
    requires OrderedUntil(link, head, descending, start)
    requires !OrderedLink(link, head, descending, start)
    requires cycle <= Pow2(p) && tail < Pow2(p)
    requires Reaches(link, head, descending, start + Pow2(p) + cycle - 2)
    requires Node(link, head, start + Pow2(p) + cycle - 1) != 0
    ensures !Accepts(link, head, descending, start + Pow2(p) + cycle - 2)
  {
    var c := start + Pow2(p) - 1;
    var k := c + cycle - 1;
    AroundCycle(link, head, tail, cycle, c);
    if k > start {
      CheckpointAt(link, head, descending, k, start, p);
      RejectsCheckpoint(link, head, descending, k);
    } else {
      Track(link, head, descending, k);
    }
  }

  lemma {:induction false} NeverEnds(link: Links, head: uint64, tail: nat, cycle: nat, i: nat)
    requires cycle >= 1 && Node(link, head, tail + cycle) == Node(link, head, tail)
    requires forall k :: 0 <= k <= tail + cycle ==> Node(link, head, k) != 0
    ensures Node(link, head, i) != 0
    decreases i
  {
    if i > tail + cycle {
      NeverEnds(link, head, tail, cycle, i - cycle);
      AroundCycle(link, head, tail, cycle, i - cycle);
    }
  }

  /** Every cycle is rejected after fewer links than four times the tail plus the cycle. */
  lemma CycleRejected(link: Links, head: uint64, descending: bool, tail: nat, cycle: nat) returns (k: nat)
    requires cycle >= 1 && Node(link, head, tail + cycle) == Node(link, head, tail)
    requires forall i :: 0 <= i <= tail + cycle ==> Node(link, head, i) != 0
    ensures k < 4 * (tail + cycle)
    ensures Reaches(link, head, descending, k) && !Accepts(link, head, descending, k)
  {
    forall i: nat ensures Node(link, head, i) != 0 { NeverEnds(link, head, tail, cycle, i); }
    k := 0;
    while k < 4 * (tail + cycle) && Accepts(link, head, descending, k)
      invariant k <= 4 * (tail + cycle) && Reaches(link, head, descending, k)
    {
      k := k + 1;
    }
    StillUnderWay(link, head, descending, tail, cycle);
  }

  lemma StillUnderWay(link: Links, head: uint64, descending: bool, tail: nat, cycle: nat)
    requires cycle >= 1 && Node(link, head, tail + cycle) == Node(link, head, tail)
    requires forall i: nat :: Node(link, head, i) != 0
    ensures !Reaches(link, head, descending, 4 * (tail + cycle))
  {
    var k := 4 * (tail + cycle);
    if Reaches(link, head, descending, k) {
      Track(link, head, descending, k);
      var g := GuardAt(link, head, descending, k);
      if OrderedUntil(link, head, descending, tail + cycle) {
        OrderedClimbs(link, head, descending, tail + cycle, tail, tail + cycle);
      } else {
        var start: nat, power: nat :| Tracks(link, head, descending, g, k, start, power);
        var p := PowerAbove(if tail + 1 <= cycle then cycle else tail + 1);
        MeetsCheckpoint(link, head, descending, tail, cycle, start, p);
      }
    }
  }

  /** Strictly falls with every accepted link, so every guarded walk ends. */
  ghost function Budget(g: Guard, current: uint64, descending: bool): nat {
    if current == 0 then 0
    else if g.steps != 0 then 1 + MAX_U64 - g.steps
    else 2 + MAX_U64 + if descending then current else MAX_U64 - current
  }

  lemma BudgetFalls(g: Guard, current: uint64, next: uint64, descending: bool)
    requires current != 0 && Advanced(g, current, next, descending).accepted
    ensures Budget(Advanced(g, current, next, descending).guard, next, descending) < Budget(g, current, descending)
  {
  }

  /** A guarded walk over any links ends, after `n` nodes, at the end of the chain or at the
      first rejected link, which leads back to one of those nodes. */
  method Walk(link: Links, head: uint64, descending: bool) returns (n: nat, rejected: bool)
    ensures !rejected ==> Passes(link, head, descending, n) && Node(link, head, n) == 0
    ensures rejected ==> n > 0 && Reaches(link, head, descending, n - 1) && !Accepts(link, head, descending, n - 1)
    ensures rejected && n < MAX_U64 ==> exists j: nat :: j < n && Node(link, head, j) == Node(link, head, n)
  {
    var guard := new ChainGuard();
    var current := head;
    n := 0;
    while current != 0
      invariant Passes(link, head, descending, n)
      invariant current == Node(link, head, n) && guard.State() == GuardAt(link, head, descending, n)
      decreases Budget(guard.State(), current, descending)
    {
      var next := Next(link, current);
      ghost var before := guard.State();
      var accepted := guard.Advance(current, next, descending);
      n := n + 1;
      assert next == Node(link, head, n);
      assert accepted == Accepts(link, head, descending, n - 1);
      if !accepted {
        if n < MAX_U64 {
          var j := RejectsOnlyRevisits(link, head, descending, n - 1);
        }
        return n, true;
      }
      BudgetFalls(before, current, next, descending);
      current := next;
    }
    rejected := false;
  }

  // ----- history checks for out-of-order array links

  /** The nodes from `head` to `current` as the array chain links them. */
  ghost predicate History(arrays: Arrays, head: uint64, current: uint64, history: seq<uint64>) {
    && history != [] && history[0] == head && history[|history|-1] == current
    && (forall i :: 0 <= i < |history| ==> history[i] in arrays)
    && (forall i, j :: 0 <= i && j == i + 1 < |history| ==> history[j] == arrays[history[i]].next)
    && (forall i, j :: 0 <= i < j < |history| ==> history[i] != history[j])
  }

  ghost predicate Follows(link: Links, head: uint64, history: seq<uint64>, k: nat)
    requires k < |history|
  {
    forall i :: 0 <= i <= k ==> Node(link, head, i) == history[i]
  }

  lemma NoFalseAlarm(link: Links, head: uint64, history: seq<uint64>, k: nat)
    requires k + 1 < |history| < MAX_U64 && Follows(link, head, history, k + 1)
    requires forall i, j :: 0 <= i < j < |history| ==> history[i] != history[j]
    requires Reaches(link, head, false, k)
    ensures Accepts(link, head, false, k)
  {
    if !Accepts(link, head, false, k) {
      var j := RejectsOnlyRevisits(link, head, false, k);
    }
  }

  ghost function LinksOf(arrays: Arrays): Links { map x | x in arrays :: arrays[x].next }

  /** The history up to a node other than the last goes on as the links do. */
  lemma HistoryNext(arrays: Arrays, head: uint64, current: uint64, history: seq<uint64>, k: nat)
    requires History(arrays, head, current, history) && k < |history| && history[k] != current
    requires Follows(LinksOf(arrays), head, history, k)
    ensures k + 1 < |history| && Follows(LinksOf(arrays), head, history, k + 1)
  {
    assert history[k + 1] == arrays[history[k]].next;
  }

  lemma NotYetSeen(history: seq<uint64>, k: nat, next: uint64)
    requires k < |history| && next !in history[..k] && history[k] != next
    ensures next !in history[..k + 1]
  {
  }

  lemma SeenAll(arrays: Arrays, head: uint64, current: uint64, history: seq<uint64>, k: nat)
    requires History(arrays, head, current, history) && k < |history| && history[k] == current
    ensures history == history[..k] + [current]
  {
  }

  /** What the look through the history knows when it has come to node `k`. */
  ghost predicate LookedUp(arrays: Arrays, head: uint64, current: uint64, next: uint64, history: seq<uint64>, k: nat) {
    History(arrays, head, current, history) && |history| < MAX_U64 ==>
      k < |history| && next !in history[..k] && Follows(LinksOf(arrays), head, history, k)
  }

  lemma LookOn(arrays: Arrays, head: uint64, current: uint64, next: uint64, history: seq<uint64>, k: nat)
    requires LookedUp(arrays, head, current, next, history, k) && Node(LinksOf(arrays), head, k) !in {current, next}
    ensures LookedUp(arrays, head, current, next, history, k + 1)
  {
    if History(arrays, head, current, history) && |history| < MAX_U64 {
      HistoryNext(arrays, head, current, history, k);
      NotYetSeen(history, k, next);
    }
  }

  lemma LookEnds(arrays: Arrays, head: uint64, current: uint64, next: uint64, history: seq<uint64>, k: nat)
    requires LookedUp(arrays, head, current, next, history, k) && Node(LinksOf(arrays), head, k) == current != next
    ensures History(arrays, head, current, history) && |history| < MAX_U64 ==> next !in history
  {
    if History(arrays, head, current, history) && |history| < MAX_U64 { SeenAll(arrays, head, current, history, k); }
  }

  lemma LookRejected(arrays: Arrays, head: uint64, current: uint64, next: uint64, history: seq<uint64>, k: nat)
    requires LookedUp(arrays, head, current, next, history, k + 1)
    requires Reaches(LinksOf(arrays), head, false, k) && !Accepts(LinksOf(arrays), head, false, k)
    ensures !(History(arrays, head, current, history) && |history| < MAX_U64)
  {
    if History(arrays, head, current, history) && |history| < MAX_U64 {
      NoFalseAlarm(LinksOf(arrays), head, history, k);
    }
  }

  /** Looks whether the array after `current` was visited before; an error either way the
      history cannot be read back to `current`. */
  method RejectArrayRevisit(arrays: Arrays, head: uint64, current: uint64, next: uint64, ghost history: seq<uint64>)
    returns (r: Result<bool>)
    ensures History(arrays, head, current, history) && |history| < MAX_U64 ==> (r.Err? <==> next in history)
  {
    var guard := new ChainGuard();
    var offset := head;
    ghost var link := LinksOf(arrays);
    ghost var k := 0;
    while offset != 0
      invariant Passes(link, head, false, k)
      invariant offset == Node(link, head, k) && guard.State() == GuardAt(link, head, false, k)
      invariant LookedUp(arrays, head, current, next, history, k)
      decreases Budget(guard.State(), offset, false)
    {
      if offset == next {
        return Err(CorruptObject);
      }
      if offset == current {
        LookEnds(arrays, head, current, next, history, k);
        return Ok(true);
      }
      if offset !in arrays {
        return Err(CorruptObject);
      }
      LookOn(arrays, head, current, next, history, k);
      var nextOffset := arrays[offset].next;
      assert nextOffset == Node(link, head, k + 1);
      ghost var before := guard.State();
      var accepted := guard.Advance(offset, nextOffset, false);
      assert accepted == Accepts(link, head, false, k);
      if !accepted {
        LookRejected(arrays, head, current, next, history, k);
        return Err(CorruptObject);
      }
      BudgetFalls(before, offset, nextOffset, false);
      offset := nextOffset;
      k := k + 1;
    }
    return Err(CorruptObject);
  }
}
