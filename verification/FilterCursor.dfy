/** The posting cursor under every match expression: it walks one DATA object's posting
    list lazily, array node by array node, and only ever moves in the direction of the
    current walk (go/journal/reader_filter_posting.go). */
module FilterCursor {
  import opened JournalGraph

  datatype PostingNode = PostingNode(offset: uint64, next: uint64, remaining: nat, length: nat)

  function Min(a: nat, b: nat): nat { if a <= b then a else b }

  /** The nodes a complete walk of the chain loads, in order. */
  ghost function AllNodes(arrays: Arrays, head: uint64, total: nat): (nodes: seq<PostingNode>)
    decreases total
  {
    if total == 0 || head !in arrays || |arrays[head].items| == 0 then []
    else
      var a := arrays[head];
      var used := Min(total, |a.items|);
      [PostingNode(head, a.next, total, used)] + AllNodes(arrays, a.next, total - used)
  }

  ghost predicate LastNode(n: PostingNode) { n.remaining == n.length }

  /** A node describes an array of the chain and the stretch of the list it holds. */
  ghost predicate Describes(arrays: Arrays, chain: seq<uint64>, total: nat, n: PostingNode) {
    && n.offset in arrays && n.next == arrays[n.offset].next
    && 1 <= n.length <= |arrays[n.offset].items| && n.length <= n.remaining <= total
    && total - n.remaining + n.length <= |chain|
    && forall s: nat {:trigger SlotIs(arrays, chain, total, n, s)} :: s < n.length ==> SlotIs(arrays, chain, total, n, s)
  }

  /** Slot `s` of a node holds the posting at the node's place in the chain. */
  ghost predicate SlotIs(arrays: Arrays, chain: seq<uint64>, total: nat, n: PostingNode, s: nat) {
    && n.offset in arrays && s < |arrays[n.offset].items| && n.remaining <= total && total - n.remaining + s < |chain|
    && chain[total - n.remaining + s] == arrays[n.offset].items[s]
  }

  lemma DescribesLater(arrays: Arrays, items: seq<uint64>, rest: seq<uint64>, total: nat, n: PostingNode)
    requires |items| <= total && Describes(arrays, rest, total - |items|, n)
    ensures Describes(arrays, items + rest, total, n)
  {
    forall s: nat | s < n.length ensures SlotIs(arrays, items + rest, total, n, s) {
      assert SlotIs(arrays, rest, total - |items|, n, s);
    }
  }

  /** The slots of a node in a list that starts with one inline posting. */
  lemma DescribedSlot(arrays: Arrays, inline: uint64, chain: seq<uint64>, total: nat, n: PostingNode, s: nat)
    requires Describes(arrays, chain, total, n) && s < n.length
    ensures 0 <= total - n.remaining + s < |chain| && n.offset in arrays && s < |arrays[n.offset].items|
    ensures ([inline] + chain)[1 + total - n.remaining + s] == arrays[n.offset].items[s]
  {
    assert SlotIs(arrays, chain, total, n, s);
  }

  lemma {:induction false} NodeFacts(arrays: Arrays, head: uint64, total: nat, k: nat)
    requires k < |AllNodes(arrays, head, total)|
    ensures var n := AllNodes(arrays, head, total)[k];
            && Describes(arrays, ChainItems(arrays, head, total), total, n)
            && (k == 0 ==> n.offset == head && n.remaining == total)
    decreases k
  {
    if k > 0 {
      var a := arrays[head];
      var used := Min(total, |a.items|);
      NodeFacts(arrays, a.next, total - used, k - 1);
      DescribesLater(arrays, a.items, ChainItems(arrays, a.next, total - used), total, AllNodes(arrays, a.next, total - used)[k-1]);
    }
  }

  /** Consecutive nodes are linked, and only the last node of a complete chain ends the list. */
  lemma {:induction false} NodeLinks(arrays: Arrays, head: uint64, total: nat, k: nat)
    requires k < |AllNodes(arrays, head, total)|
    ensures var all := AllNodes(arrays, head, total);
            && all[k].length <= all[k].remaining
            && (k + 1 < |all| ==> all[k+1].offset == all[k].next && all[k+1].remaining == all[k].remaining - all[k].length)
            && (k + 1 == |all| ==> AllNodes(arrays, all[k].next, all[k].remaining - all[k].length) == [])
            && (k + 1 == |all| && |ChainItems(arrays, head, total)| == total ==> LastNode(all[k]))
    decreases k
  {
    var a := arrays[head];
    var used := Min(total, |a.items|);
    var rest := AllNodes(arrays, a.next, total - used);
    if k > 0 {
      NodeLinks(arrays, a.next, total - used, k - 1);
      assert AllNodes(arrays, head, total)[k] == rest[k-1];
    } else if rest != [] {
      NodeFacts(arrays, a.next, total - used, 0);
    } else {
      assert total > used ==> ChainItems(arrays, a.next, total - used) == [];
    }
  }

  /** Loading the array after the last loaded node stays on the complete walk. */
  lemma ExtendNodes(arrays: Arrays, head: uint64, total: nat, nodes: seq<PostingNode>, n: PostingNode)
    requires nodes <= AllNodes(arrays, head, total)
    requires n.offset in arrays && |arrays[n.offset].items| > 0 && n.remaining > 0
    requires n == PostingNode(n.offset, arrays[n.offset].next, n.remaining, Min(n.remaining, |arrays[n.offset].items|))
    requires if nodes == [] then n.offset == head && n.remaining == total
             else n.offset == nodes[|nodes|-1].next && n.remaining == nodes[|nodes|-1].remaining - nodes[|nodes|-1].length
    ensures nodes + [n] <= AllNodes(arrays, head, total)
  {
    var all := AllNodes(arrays, head, total);
    if nodes != [] {
      var k := |nodes| - 1;
      assert nodes[k] == all[k];
      NodeLinks(arrays, head, total, k);
      NodeFacts(arrays, head, total, k);
      if k + 1 < |all| {
        NodeFacts(arrays, head, total, k + 1);
        NodeShape(arrays, head, total, k + 1);
      }
    }
  }

  lemma {:induction false} NodeShape(arrays: Arrays, head: uint64, total: nat, k: nat)
    requires k < |AllNodes(arrays, head, total)|
    ensures var n := AllNodes(arrays, head, total)[k];
            n.offset in arrays && n.next == arrays[n.offset].next && n.length == Min(n.remaining, |arrays[n.offset].items|)
    decreases k
  {
    var used := Min(total, |arrays[head].items|);
    if k > 0 {
      NodeShape(arrays, arrays[head].next, total - used, k - 1);
    }
  }

  lemma {:induction false} RemainingFalls(arrays: Arrays, head: uint64, total: nat, j: nat, k: nat)
    requires j <= k < |AllNodes(arrays, head, total)|
    ensures AllNodes(arrays, head, total)[k].remaining <= AllNodes(arrays, head, total)[j].remaining
    decreases k
  {
    if j < k {
      RemainingFalls(arrays, head, total, j, k - 1);
      NodeLinks(arrays, head, total, k - 1);
    }
  }

  lemma NodeFirst(arrays: Arrays, head: uint64, total: nat, k: nat)
    requires k < |AllNodes(arrays, head, total)|
    ensures var n := AllNodes(arrays, head, total)[k];
            var at := total - n.remaining;
            && 0 <= at < |ChainItems(arrays, head, total)|
            && n.offset in arrays && arrays[n.offset].items != []
            && ChainItems(arrays, head, total)[at] == arrays[n.offset].items[0]
  {
    NodeFacts(arrays, head, total, k);
    var n := AllNodes(arrays, head, total)[k];
    assert SlotIs(arrays, ChainItems(arrays, head, total), total, n, 0);
  }

  /** A chain that re-enters a loaded node repeats that node's first posting. */
  lemma RevisitUnhealthy(arrays: Arrays, head: uint64, total: nat, i: nat, k: nat)
    requires i <= k && k + 1 < |AllNodes(arrays, head, total)|
    requires AllNodes(arrays, head, total)[k+1].offset == AllNodes(arrays, head, total)[i].offset
    ensures !Ascending(ChainItems(arrays, head, total))
  {
    NodeFirst(arrays, head, total, i);
    NodeFirst(arrays, head, total, k + 1);
    RemainingFalls(arrays, head, total, i, k);
    NodeFacts(arrays, head, total, k);
    NodeLinks(arrays, head, total, k);
  }

  /** Where a posting list continues past its end: the empty slot. */
  ghost function PostingAt(p: seq<uint64>, i: int): uint64 {
    if 0 <= i < |p| then p[i] else 0
  }

  class PostingCursor {
    const dataOffset: uint64
    const count: uint64
    const inline: uint64
    const head: uint64
    var nodes: seq<PostingNode>
    var highest: uint64
    var node: int
    var slot: nat
    var value: uint64

    constructor (dataOffset: uint64, count: uint64, inline: uint64, head: uint64)
      ensures this.dataOffset == dataOffset && this.count == count
      ensures this.inline == inline && this.head == head
      ensures nodes == [] && node == -1 && slot == 0 && value == inline
    {
      this.dataOffset, this.count, this.inline, this.head := dataOffset, count, inline, head;
      nodes, highest, node, slot, value := [], 0, -1, 0, inline;
    }

    ghost function List(arrays: Arrays): seq<uint64> {
      Postings(arrays, inline, head, count)
    }

    ghost predicate Healthy(arrays: Arrays) {
      HealthyPostings(List(arrays), count)
    }

    ghost function Nodes(arrays: Arrays): seq<PostingNode> {
      if count < 2 then [] else AllNodes(arrays, head, count - 1)
    }

    /** The index in the posting list the cursor stands on. Node -2 is a backward walk that
        is not resolved yet, -1 the inline entry, otherwise a slot of a loaded node. */
    ghost function Pos(): int
      reads this
    {
      if node == -2 then count - 1
      else if 0 <= node < |nodes| then count - nodes[node].remaining + slot
      else 0
    }

    ghost predicate Valid(arrays: Arrays)
      reads this
    {
      && (count == 0 <==> inline == 0)
      && nodes <= Nodes(arrays)
      && -2 <= node < |nodes|
      && (node == -2 ==> value == 0)
      && (node == -1 ==> slot == 0 && value == inline)
      && (node >= 0 ==> slot < nodes[node].length)
      && (value != 0 ==> value == PostingAt(List(arrays), Pos()))
    }

    /** A slot of a loaded node is the posting at that node's place in the list. */
    lemma SlotPosting(arrays: Arrays, k: nat, s: nat)
      requires Valid(arrays) && k < |nodes| && s < nodes[k].length
      ensures var n := nodes[k];
              && 1 <= count - n.remaining + s < |List(arrays)| <= count
              && n.offset in arrays && s < |arrays[n.offset].items|
              && List(arrays)[count - n.remaining + s] == arrays[n.offset].items[s]
    {
      var n := nodes[k];
      assert n == Nodes(arrays)[k];
      NodeFacts(arrays, head, count - 1, k);
      DescribedSlot(arrays, inline, ChainItems(arrays, head, count - 1), count - 1, n, s);
    }

    lemma PosInList(arrays: Arrays)
      requires Valid(arrays) && count > 0
      ensures 0 <= Pos() < count
      ensures value != 0 ==> Pos() < |List(arrays)| && value == List(arrays)[Pos()]
    {
      if node >= 0 {
        SlotPosting(arrays, node, slot);
      }
    }

    method Revisits(offset: uint64) returns (seen: bool)
      ensures seen <==> exists k :: 0 <= k < |nodes| && nodes[k].offset == offset
    {
      for i := 0 to |nodes|
        invariant forall k :: 0 <= k < i ==> nodes[k].offset != offset
      {
        if nodes[i].offset == offset { return true; }
      }
      return false;
    }

    ghost predicate MoreNodes()
      reads this
    {
      nodes == [] || !LastNode(nodes[|nodes|-1])
    }

    lemma NextArrayExists(arrays: Arrays)
      requires Valid(arrays) && count >= 2 && Healthy(arrays) && MoreNodes()
      ensures nodes == [] ==> head in arrays && |arrays[head].items| > 0
      ensures nodes != [] ==> |nodes| < |Nodes(arrays)| && nodes[|nodes|-1].next == Nodes(arrays)[|nodes|].offset
      ensures nodes != [] ==> nodes[|nodes|-1].next in arrays && |arrays[nodes[|nodes|-1].next].items| > 0
    {
      if nodes != [] {
        var k := |nodes| - 1;
        assert nodes[k] == Nodes(arrays)[k];
        NodeLinks(arrays, head, count - 1, k);
        NodeFacts(arrays, head, count - 1, k + 1);
      }
    }

    /** In a healthy list the next array has not been loaded before. */
    lemma NextArrayNew(arrays: Arrays, i: nat)
      requires Valid(arrays) && count >= 2 && Healthy(arrays) && MoreNodes()
      requires i < |nodes|
      ensures nodes[i].offset != nodes[|nodes|-1].next
    {
      NextArrayExists(arrays);
      assert ChainItems(arrays, head, count - 1) == List(arrays)[1..];
      if nodes[i].offset == nodes[|nodes|-1].next {
        assert nodes[i] == Nodes(arrays)[i];
        RevisitUnhealthy(arrays, head, count - 1, i, |nodes|-1);
      }
    }

    lemma NextArrayReadable(arrays: Arrays)
      requires Valid(arrays) && count >= 2 && Healthy(arrays) && MoreNodes()
      ensures var offset := if nodes == [] then head else nodes[|nodes|-1].next;
              && offset in arrays && |arrays[offset].items| > 0
              && forall k :: 0 <= k < |nodes| ==> nodes[k].offset != offset
    {
      NextArrayExists(arrays);
      forall k | 0 <= k < |nodes| ensures nodes[k].offset != nodes[|nodes|-1].next {
        NextArrayNew(arrays, k);
      }
    }

    /** What the loaded nodes leave to cover, and the array where that continues. */
    ghost predicate Continues(arrays: Arrays, remaining: int, offset: uint64)
      reads this
    {
      && 0 <= remaining
      && (if nodes == [] then remaining == count - 1 && offset == head
          else remaining == nodes[|nodes|-1].remaining - nodes[|nodes|-1].length && offset == nodes[|nodes|-1].next)
      && (remaining > 0 <==> MoreNodes())
    }

    method LoadNode(arrays: Arrays, remaining: nat, offset: uint64) returns (r: Result<bool>)
      requires Valid(arrays) && count >= 2
      requires Continues(arrays, remaining, offset) && remaining > 0
      modifies this`nodes, this`highest
      ensures Valid(arrays)
      ensures r.Ok? <==> offset in arrays && |arrays[offset].items| > 0
      ensures r.Err? ==> nodes == old(nodes)
      ensures r.Ok? ==> |nodes| == |old(nodes)| + 1 && old(nodes) <= nodes
    {
      if offset !in arrays || |arrays[offset].items| == 0 {
        return Err(CorruptObject);
      }
      var n := PostingNode(offset, arrays[offset].next, remaining, Min(remaining, |arrays[offset].items|));
      ExtendNodes(arrays, head, count - 1, nodes, n);
      nodes := nodes + [n];
      highest := if highest < offset then offset else highest;
      return Ok(true);
    }

    method NextPlace(arrays: Arrays) returns (remaining: nat, offset: uint64)
      requires Valid(arrays) && count >= 2
      ensures Continues(arrays, remaining, offset)
    {
      remaining, offset := count - 1, head;
      if |nodes| != 0 {
        var last := nodes[|nodes|-1];
        AdjacentNodes(arrays, |nodes|-1);
        remaining, offset := last.remaining - last.length, last.next;
      }
    }

    method AppendNode(arrays: Arrays) returns (r: Result<bool>)
      requires Valid(arrays) && count >= 2
      modifies this`nodes, this`highest
      ensures Valid(arrays)
      ensures r.Err? ==> nodes == old(nodes)
      ensures r.Ok? ==> |nodes| == |old(nodes)| + 1 && old(nodes) <= nodes && old(MoreNodes())
      ensures Healthy(arrays) && old(MoreNodes()) ==> r.Ok?
    {
      var remaining, offset := NextPlace(arrays);
      ghost var good := Healthy(arrays) && MoreNodes();
      assert good ==> offset in arrays && |arrays[offset].items| > 0 && forall k :: 0 <= k < |nodes| ==> nodes[k].offset != offset by {
        if good { NextArrayReadable(arrays); }
      }
      if |nodes| != 0 && remaining > 0 && offset <= highest {
        var seen := Revisits(offset);
        if seen {
          return Err(CorruptObject);
        }
      }
      if remaining == 0 || offset == 0 {
        return Err(TailFailure);
      }
      r := LoadNode(arrays, remaining, offset);
    }

    method LoadAllNodes(arrays: Arrays) returns (r: Result<bool>)
      requires Valid(arrays) && count >= 2 && node == -1
      modifies this`nodes, this`highest
      ensures Valid(arrays)
      ensures Healthy(arrays) ==> r.Ok?
      ensures r.Ok? ==> !MoreNodes()
    {
      while |nodes| == 0 || nodes[|nodes|-1].remaining > nodes[|nodes|-1].length
        invariant Valid(arrays)
        decreases |Nodes(arrays)| - |nodes|
      {
        var a := AppendNode(arrays);
        if a.Err? {
          return a;
        }
      }
      AdjacentNodes(arrays, |nodes| - 1);
      return Ok(true);
    }

    /** Puts the cursor on the first posting of a walk along `dir`. */
    method Reset(arrays: Arrays, dir: Direction) returns (r: Result<bool>)
      requires Valid(arrays)
      modifies this
      ensures Valid(arrays)
      ensures Healthy(arrays) ==> r.Ok?
      ensures r.Ok? && count > 0 ==> Pos() == (if dir.Forward? then 0 else count - 1)
      ensures r.Ok? ==> node != -2
    {
      node, slot, value := -1, 0, inline;
      if count < 2 || dir.Forward? {
        return Ok(true);
      }
      r := LoadAllNodes(arrays);
      if r.Err? { return; }
      MoveToLast(arrays);
    }

    method MoveToLast(arrays: Arrays)
      requires Valid(arrays) && nodes != [] && LastNode(nodes[|nodes|-1])
      modifies this`node, this`slot, this`value
      ensures Valid(arrays) && Pos() == count - 1 && node >= 0
    {
      var index := |nodes| - 1;
      AdjacentNodes(arrays, index);
      node, slot, value := index, nodes[index].length - 1, 0;
    }

    method ReadSlot(arrays: Arrays, k: nat, s: nat) returns (r: Result<uint64>)
      requires Valid(arrays) && k < |nodes| && s < nodes[k].length
      ensures r.Ok? ==> r.value != 0 && r.value == PostingAt(List(arrays), count - nodes[k].remaining + s)
      ensures Healthy(arrays) ==> r.Ok?
    {
      SlotPosting(arrays, k, s);
      var v := arrays[nodes[k].offset].items[s];
      return if v == 0 then Err(TailFailure) else Ok(v);
    }

    /** Loads the value of a position that was prepared without reading it. */
    method Resolve(arrays: Arrays) returns (r: Result<bool>)
      requires Valid(arrays) && count > 0
      modifies this
      ensures Valid(arrays)
      ensures r.Ok? ==> value != 0 && Pos() == old(Pos())
      ensures Healthy(arrays) ==> r.Ok?
    {
      if value == 0 {
        if node == -2 {
          r := Reset(arrays, Backward);
          if r.Err? { return; }
        }
        if value == 0 {
          var v := ReadSlot(arrays, node, slot);
          if v.Err? { return Err(v.error); }
          value := v.value;
        }
      }
      return Ok(true);
    }

    lemma AdjacentNodes(arrays: Arrays, k: nat)
      requires Valid(arrays) && k < |nodes|
      ensures 1 <= nodes[k].length <= nodes[k].remaining <= count - 1
      ensures k == 0 ==> nodes[k].remaining == count - 1
      ensures k > 0 ==> nodes[k].remaining == nodes[k-1].remaining - nodes[k-1].length && nodes[k-1].length > 0
    {
      assert nodes[k] == Nodes(arrays)[k];
      NodeFacts(arrays, head, count - 1, k);
      if k > 0 {
        assert nodes[k-1] == Nodes(arrays)[k-1];
        NodeFacts(arrays, head, count - 1, k - 1);
        NodeLinks(arrays, head, count - 1, k - 1);
      }
    }

    /** Puts the cursor on slot `s` of loaded node `k` once that slot reads as a posting. */
    method MoveTo(arrays: Arrays, k: nat, s: nat) returns (r: Result<bool>)
      requires Valid(arrays) && k < |nodes| && s < nodes[k].length
      modifies this`node, this`slot, this`value
      ensures Valid(arrays)
      ensures r.Err? ==> !Healthy(arrays)
      ensures r.Ok? ==> r.value && node == k && slot == s && value != 0 && Pos() == count - nodes[k].remaining + s
    {
      var v := ReadSlot(arrays, k, s);
      if v.Err? { return Err(v.error); }
      node, slot, value := k, s, v.value;
      return Ok(true);
    }

    /** Moves to the first slot of node `k`, loading it when the walk has not reached it before. */
    method EnterNode(arrays: Arrays, k: nat) returns (r: Result<bool>)
      requires Valid(arrays) && count >= 2 && k <= |nodes| && (k == |nodes| ==> MoreNodes())
      modifies this
      ensures Valid(arrays)
      ensures r.Err? ==> !Healthy(arrays)
      ensures r.Ok? ==> r.value && value != 0
      ensures r.Ok? ==> Pos() == if k == 0 then 1 else old(count - nodes[k-1].remaining + nodes[k-1].length)
    {
      if k == |nodes| {
        var a := AppendNode(arrays);
        if a.Err? { return a; }
      }
      AdjacentNodes(arrays, k);
      r := MoveTo(arrays, k, 0);
    }

    method AdvanceForward(arrays: Arrays) returns (r: Result<bool>)
      requires Valid(arrays) && value != 0 && count > 0
      modifies this
      ensures Valid(arrays)
      ensures r.Err? ==> !Healthy(arrays)
      ensures r.Ok? ==> value != 0 && Pos() == (if r.value then old(Pos()) + 1 else old(Pos()))
      ensures r == Ok(false) ==> Pos() == count - 1
    {
      if node < 0 {
        if count == 1 { return Ok(false); }
        r := EnterNode(arrays, 0);
      } else if slot + 1 < nodes[node].length {
        r := MoveTo(arrays, node, slot + 1);
      } else if nodes[node].remaining > nodes[node].length {
        r := EnterNode(arrays, node + 1);
      } else {
        AdjacentNodes(arrays, node);
        return Ok(false);
      }
    }

    method AdvanceBackward(arrays: Arrays) returns (r: Result<bool>)
      requires Valid(arrays) && value != 0 && count > 0
      modifies this
      ensures Valid(arrays)
      ensures r.Err? ==> !Healthy(arrays)
      ensures r.Ok? ==> value != 0 && Pos() == (if r.value then old(Pos()) - 1 else old(Pos()))
      ensures r == Ok(false) ==> Pos() == 0
    {
      if node < 0 {
        return Ok(false);
      }
      AdjacentNodes(arrays, node);
      if slot > 0 {
        r := MoveTo(arrays, node, slot - 1);
      } else if node > 0 {
        r := MoveTo(arrays, node - 1, nodes[node-1].length - 1);
      } else {
        node, slot, value := -1, 0, inline;
        return Ok(true);
      }
    }

    /** No posting from position `from` up to, but not at, `to` lies at or beyond the needle. */
    static ghost predicate NonePassed(list: seq<uint64>, dir: Direction, from: int, to: int, needle: uint64) {
      forall i :: 0 <= i < |list| && Beyond(dir, i, from) && !Beyond(dir, i, to) ==> !Beyond(dir, list[i], needle)
    }

    /** Finds the nearest posting at or beyond `needle` that the walk has not passed yet. */
    method Seek(arrays: Arrays, needle: uint64, dir: Direction) returns (r: Result<uint64>)
      requires Valid(arrays)
      modifies this
      ensures Valid(arrays)
      ensures r.Ok? && r.value != 0 ==> Beyond(dir, r.value, needle)
      ensures count == 0 ==> r == Ok(0)
      ensures Healthy(arrays) ==> r.Ok?
      ensures Healthy(arrays) && count > 0 ==>
                && 0 <= Pos() < count && Beyond(dir, Pos(), old(Pos()))
                && NonePassed(List(arrays), dir, old(Pos()), Pos(), needle)
                && (r.value != 0 ==> r.value == List(arrays)[Pos()])
                && (r.value == 0 ==> Pos() == (if dir.Forward? then count - 1 else 0) && !Beyond(dir, List(arrays)[Pos()], needle))
    {
      if count == 0 {
        return Ok(0);
      }
      PosInList(arrays);
      var loaded := Resolve(arrays);
      if loaded.Err? { return Err(loaded.error); }
      ghost var from := old(Pos());
      while true
        invariant Valid(arrays) && value != 0 && Sought(arrays, dir, from, needle)
        decreases if dir.Forward? then count - Pos() else Pos()
      {
        PosInList(arrays);
        if Beyond(dir, value, needle) {
          return Ok(value);
        }
        ghost var at := Pos();
        var moved := Advance(arrays, dir);
        if moved.Err? { return Err(moved.error); }
        if !moved.value { return Ok(0); }
        PassedOne(List(arrays), dir, from, at, Pos(), needle);
      }
    }

    /** The cursor came from `from` and passed nothing that was sought. */
    ghost predicate Sought(arrays: Arrays, dir: Direction, from: int, needle: uint64)
      reads this
    {
      0 <= Pos() < count && Beyond(dir, Pos(), from) && NonePassed(List(arrays), dir, from, Pos(), needle)
    }

    static lemma PassedOne(list: seq<uint64>, dir: Direction, from: int, at: int, to: int, needle: uint64)
      requires NonePassed(list, dir, from, at, needle) && (0 <= at < |list| ==> !Beyond(dir, list[at], needle))
      requires to == if dir.Forward? then at + 1 else at - 1
      ensures NonePassed(list, dir, from, to, needle)
    {
    }

    /** Moves one posting along `dir`. */
    method Advance(arrays: Arrays, dir: Direction) returns (r: Result<bool>)
      requires Valid(arrays) && value != 0 && count > 0
      modifies this
      ensures Valid(arrays)
      ensures r.Err? ==> !Healthy(arrays)
      ensures r.Ok? ==> value != 0 && 0 <= Pos() < count
      ensures r == Ok(true) ==> Pos() == if dir.Forward? then old(Pos()) + 1 else old(Pos()) - 1
      ensures r == Ok(false) ==> Pos() == old(Pos()) == if dir.Forward? then count - 1 else 0
    {
      if dir.Forward? {
        r := AdvanceForward(arrays);
      } else {
        r := AdvanceBackward(arrays);
      }
      PosInList(arrays);
    }
  }
}
