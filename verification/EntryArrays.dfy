/** Where a walk along a chain of ENTRY_ARRAY objects stands after a number of slots, and
    which arrays it has opened by then. */
module EntryArrays {
  import opened JournalGraph

  ghost predicate NonEmptyArrays(arrays: Arrays) {
    forall a :: a in arrays ==> arrays[a].items != []
  }

  /** The arrays that hold the first `count` slots. */
  ghost function ChainArrays(arrays: Arrays, head: uint64, count: nat): (blocks: seq<uint64>)
    decreases count
  {
    if count == 0 || head !in arrays || |arrays[head].items| == 0 then []
    else if count <= |arrays[head].items| then [head]
    else [head] + ChainArrays(arrays, arrays[head].next, count - |arrays[head].items|)
  }

  datatype Place = Place(at: uint64, index: nat)

  /** The array in use after `count` slots, and how many of its slots are used. */
  ghost function Locate(arrays: Arrays, head: uint64, count: nat): Place
    decreases count
  {
    if count == 0 || head !in arrays || |arrays[head].items| == 0 then Place(head, 0)
    else if count <= |arrays[head].items| then Place(head, count)
    else Locate(arrays, arrays[head].next, count - |arrays[head].items|)
  }

  ghost predicate Complete(arrays: Arrays, head: uint64, count: nat) {
    |ChainItems(arrays, head, count)| == count
  }

  ghost predicate InBounds(arrays: Arrays, p: Place) {
    p.at in arrays && 0 < p.index <= |arrays[p.at].items|
  }

  lemma {:induction false} LocateInBounds(arrays: Arrays, head: uint64, count: nat)
    requires Complete(arrays, head, count) && count > 0
    ensures InBounds(arrays, Locate(arrays, head, count))
    ensures var blocks := ChainArrays(arrays, head, count);
            blocks != [] && blocks[|blocks|-1] == Locate(arrays, head, count).at
    decreases count
  {
    if count > |arrays[head].items| {
      LocateInBounds(arrays, arrays[head].next, count - |arrays[head].items|);
    }
  }

  /** The place where slot number `count` lies, or the head of a missing array. */
  ghost function NextPlace(arrays: Arrays, head: uint64, count: nat): Place {
    var p := Locate(arrays, head, count);
    if p.at in arrays && p.index == |arrays[p.at].items| then Place(arrays[p.at].next, 0) else p
  }

  /** Taking one more slot opens at most one array. */
  lemma {:induction false} TakeSlot(arrays: Arrays, head: uint64, count: nat)
    requires NonEmptyArrays(arrays) && Complete(arrays, head, count)
    ensures var p := NextPlace(arrays, head, count);
            && (Complete(arrays, head, count + 1) <==> p.at in arrays)
            && (p.at in arrays ==>
                  && p.index < |arrays[p.at].items|
                  && ChainItems(arrays, head, count + 1) == ChainItems(arrays, head, count) + [arrays[p.at].items[p.index]]
                  && Locate(arrays, head, count + 1) == Place(p.at, p.index + 1)
                  && ChainArrays(arrays, head, count + 1) ==
                       ChainArrays(arrays, head, count) + if p.index == 0 then [p.at] else [])
    decreases count
  {
    if count > 0 {
      var n := |arrays[head].items|;
      if count > n {
        TakeSlot(arrays, arrays[head].next, count - n);
      } else if count == n {
        assert ChainItems(arrays, arrays[head].next, 0) == [];
        var next := arrays[head].next;
        assert ChainItems(arrays, head, count + 1) == arrays[head].items + ChainItems(arrays, next, 1);
      }
    }
  }

  /** A prefix of a complete chain is complete and opens a prefix of its arrays. */
  lemma {:induction false} ChainPrefix(arrays: Arrays, head: uint64, count: nat, total: nat)
    requires Complete(arrays, head, total) && count <= total
    ensures Complete(arrays, head, count)
    ensures ChainItems(arrays, head, count) == ChainItems(arrays, head, total)[..count]
    ensures ChainArrays(arrays, head, count) <= ChainArrays(arrays, head, total)
    decreases count
  {
    if count > 0 {
      var n := |arrays[head].items|;
      if count > n {
        ChainPrefix(arrays, arrays[head].next, count - n, total - n);
      }
    }
  }

  lemma {:induction false} ItemsPrefix(arrays: Arrays, head: uint64, count: nat, total: nat)
    requires count <= total
    ensures ChainItems(arrays, head, count) <= ChainItems(arrays, head, total)
    decreases count
  {
    if count > 0 && head in arrays && |arrays[head].items| > 0 {
      var n := |arrays[head].items|;
      if count > n {
        ItemsPrefix(arrays, arrays[head].next, count - n, total - n);
      }
    }
  }

  lemma {:induction false} OpenedExist(arrays: Arrays, head: uint64, count: nat)
    ensures forall a :: a in ChainArrays(arrays, head, count) ==> a in arrays
    decreases count
  {
    if count > 0 && head in arrays && 0 < |arrays[head].items| < count {
      OpenedExist(arrays, arrays[head].next, count - |arrays[head].items|);
    }
  }
}
