/** Native hash tables and FIELD chains: what the strict verifier decides about them
    (go/journal/verify_index.go:234-366) and what lookups then find
    (go/journal/explorer.go:1094-1130, 1208-1232). */
module HashIndex {
  import opened JournalGraph
  import G = ChainGuard

  /** The part of a hashed object that its bucket chain depends on. */
  datatype Link = Link(hash: uint64, next: uint64)

  type Objects = map<uint64, Link>

  function DataLinks(j: Journal): Objects {
    map d | d in j.data :: Link(j.data[d].hash, j.data[d].nextHash)
  }

  function FieldLinks(j: Journal): Objects {
    map f | f in j.fields :: Link(j.fields[f].hash, j.fields[f].nextHash)
  }

  // ----- bucket chains

  /** The objects on a chain, for as long as its links increase. */
  ghost function Chain(objs: Objects, at: uint64): seq<uint64>
    decreases MAX_U64 - at
  {
    if at == 0 || at !in objs then []
    else [at] + if objs[at].next > at then Chain(objs, objs[at].next) else []
  }

  /** The chain consists of existing objects, its links increase, and it ends. */
  ghost predicate ChainOk(objs: Objects, at: uint64)
    decreases MAX_U64 - at
  {
    at == 0 || (at in objs && (objs[at].next == 0 || (objs[at].next > at && ChainOk(objs, objs[at].next))))
  }

  ghost predicate InBucket(objs: Objects, chain: seq<uint64>, b: nat, n: nat)
    requires n > 0
  {
    forall x :: x in chain ==> x in objs && objs[x].hash % n == b
  }

  ghost predicate BucketOk(objs: Objects, table: seq<HashItem>, b: nat)
    requires b < |table|
  {
    var chain := Chain(objs, table[b].head);
    && ChainOk(objs, table[b].head)
    && InBucket(objs, chain, b, |table|)
    && table[b].tail == if chain == [] then 0 else chain[|chain|-1]
  }

  /** Every object hangs on the chain of its own bucket, and on no other. */
  ghost predicate HashIndexed(objs: Objects, table: seq<HashItem>) {
    && (table == [] ==> objs == map[])
    && (forall b :: 0 <= b < |table| ==> BucketOk(objs, table, b))
    && (table != [] ==> forall x :: x in objs ==> x in Chain(objs, table[objs[x].hash % |table|].head))
  }

  lemma {:induction false} ChainAscends(objs: Objects, at: uint64)
    ensures Ascending(Chain(objs, at))
    ensures forall x :: x in Chain(objs, at) ==> at <= x && x in objs
    decreases MAX_U64 - at
  {
    if at != 0 && at in objs && objs[at].next > at {
      var rest := Chain(objs, objs[at].next);
      ChainAscends(objs, objs[at].next);
      AscendingCons(at, rest);
    }
  }

  /** How far a bucket walk has come: `path` is done, `current` is next. */
  ghost predicate Walking(objs: Objects, head: uint64, path: seq<uint64>, last: uint64, current: uint64) {
    && last == (if path == [] then 0 else path[|path|-1])
    && (ChainOk(objs, head) <==> current == 0 || (current > last && ChainOk(objs, current)))
    && (current == 0 || current > last ==> Chain(objs, head) == path + Chain(objs, current))
  }

  lemma WalkStep(objs: Objects, head: uint64, path: seq<uint64>, last: uint64, current: uint64)
    requires Walking(objs, head, path, last, current) && current > last && current in objs
    ensures Walking(objs, head, path + [current], current, objs[current].next)
  {
    var next := objs[current].next;
    if next == 0 || next > current {
      assert Chain(objs, current) == [current] + Chain(objs, next);
      PathGrows(path, current, Chain(objs, next));
    }
  }

  lemma PathGrows(path: seq<uint64>, current: uint64, rest: seq<uint64>)
    ensures path + ([current] + rest) == (path + [current]) + rest
  {
  }

  /** An object that breaks the order, is missing, or hashes elsewhere spoils the bucket. */
  lemma WalkRejects(objs: Objects, table: seq<HashItem>, b: nat, path: seq<uint64>, last: uint64, current: uint64)
    requires b < |table| && Walking(objs, table[b].head, path, last, current) && current != 0
    requires current <= last || current !in objs || objs[current].hash % |table| != b
    ensures !BucketOk(objs, table, b)
  {
    if current > last && current in objs {
      var chain := Chain(objs, table[b].head);
      assert chain[|path|] == current;
      assert current in chain;
    }
  }

  lemma WalkEnds(objs: Objects, table: seq<HashItem>, b: nat, path: seq<uint64>, last: uint64)
    requires b < |table| && Walking(objs, table[b].head, path, last, 0) && InBucket(objs, path, b, |table|)
    ensures BucketOk(objs, table, b) <==> last == table[b].tail
    ensures Chain(objs, table[b].head) == path
  {
  }

  /** Walks one bucket; `seen` collects the objects of all buckets. */
  method ValidateBucket(objs: Objects, table: seq<HashItem>, b: nat, seen: set<uint64>) returns (ok: bool, seen': set<uint64>)
    requires b < |table|
    requires forall x :: x in seen ==> x in objs && objs[x].hash % |table| != b
    ensures ok <==> BucketOk(objs, table, b)
    ensures ok ==> seen' == seen + Elements(Chain(objs, table[b].head))
  {
    var current: uint64 := table[b].head;
    ghost var path: seq<uint64> := [];
    var last: uint64 := 0;
    seen' := seen;
    while current != 0
      invariant Walking(objs, table[b].head, path, last, current)
      invariant seen' == seen + Elements(path)
      invariant InBucket(objs, path, b, |table|)
      invariant forall x :: x in path ==> x <= last
      decreases current != 0, MAX_U64 - last
    {
      if current <= last || current in seen' || current !in objs || objs[current].hash % |table| != b {
        WalkRejects(objs, table, b, path, last, current);
        return false, seen';
      }
      WalkStep(objs, table[b].head, path, last, current);
      seen' := seen' + {current};
      path := path + [current];
      last, current := current, objs[current].next;
    }
    WalkEnds(objs, table, b, path, last);
    ok := last == table[b].tail;
  }

  ghost predicate SeenUpTo(objs: Objects, table: seq<HashItem>, b: nat, seen: set<uint64>)
    requires b <= |table| && table != []
  {
    && (forall k :: 0 <= k < b ==> BucketOk(objs, table, k))
    && (forall x :: x in seen ==> x in objs && objs[x].hash % |table| < b && x in Chain(objs, table[objs[x].hash % |table|].head))
    && (forall k, x :: 0 <= k < b && x in Chain(objs, table[k].head) ==> x in seen)
  }

  lemma SeenStep(objs: Objects, table: seq<HashItem>, b: nat, seen: set<uint64>, seen': set<uint64>)
    requires b < |table| && SeenUpTo(objs, table, b, seen) && BucketOk(objs, table, b)
    requires seen' == seen + Elements(Chain(objs, table[b].head))
    ensures SeenUpTo(objs, table, b + 1, seen')
  {
    var chain := Chain(objs, table[b].head);
    assert forall x :: x in seen' <==> x in seen || x in chain;
  }

  lemma SeenAll(objs: Objects, table: seq<HashItem>, seen: set<uint64>)
    requires table != [] && SeenUpTo(objs, table, |table|, seen)
    ensures HashIndexed(objs, table) <==> |seen| == |objs|
  {
    assert seen <= objs.Keys;
    if seen == objs.Keys {
      assert |seen| == |objs.Keys|;
    } else {
      var x :| x in objs.Keys && x !in seen;
      SubsetSmaller(seen, objs.Keys, x);
      assert x !in Chain(objs, table[objs[x].hash % |table|].head);
    }
  }

  lemma {:induction false} SubsetSmaller(a: set<uint64>, b: set<uint64>, x: uint64)
    requires a <= b && x in b && x !in a
    ensures |a| < |b|
    decreases |a|
  {
    if a != {} {
      var y :| y in a;
      SubsetSmaller(a - {y}, b - {y}, x);
    }
  }

  /** Accepts exactly the tables whose chains hold every object once, in its own bucket. */
  method ValidateTable(objs: Objects, table: seq<HashItem>) returns (ok: bool)
    ensures ok <==> HashIndexed(objs, table)
  {
    if table == [] {
      return |objs| == 0;
    }
    var seen: set<uint64> := {};
    for b := 0 to |table|
      invariant SeenUpTo(objs, table, b, seen)
    {
      var seen': set<uint64>;
      ok, seen' := ValidateBucket(objs, table, b, seen);
      if !ok {
        return;
      }
      SeenStep(objs, table, b, seen, seen');
      seen := seen';
    }
    SeenAll(objs, table, seen);
    ok := |seen| == |objs|;
  }

  // ----- lookups by payload

  type Hasher = bytes -> uint64

  /** Stored hashes are those of the payloads, and no payload is stored twice
      (go/journal/verify_graph.go:442-464). */
  ghost predicate PayloadsUnique(j: Journal, hasher: Hasher) {
    && (forall d :: d in j.data ==> j.data[d].hash == hasher(j.data[d].payload))
    && (forall p, d, d' {:trigger Holds(j, p, d), Holds(j, p, d')} :: Holds(j, p, d) && Holds(j, p, d') ==> d == d')
  }

  ghost predicate Holds(j: Journal, payload: bytes, d: uint64) {
    d in j.data && j.data[d].payload == payload
  }

  /** Whatever still matches lies ahead of the walk. */
  ghost predicate Ahead(j: Journal, payload: bytes, head: uint64, offset: uint64) {
    && ChainOk(DataLinks(j), offset)
    && forall x :: x in Chain(DataLinks(j), head) && Holds(j, payload, x) ==> x in Chain(DataLinks(j), offset)
  }

  lemma AheadStep(j: Journal, payload: bytes, head: uint64, offset: uint64)
    requires Ahead(j, payload, head, offset) && offset != 0 && offset in j.data && j.data[offset].payload != payload
    ensures Ahead(j, payload, head, j.data[offset].nextHash)
    ensures j.data[offset].nextHash == 0 || j.data[offset].nextHash > offset
  {
    var objs, next := DataLinks(j), j.data[offset].nextHash;
    assert Chain(objs, offset) == [offset] + if next > offset then Chain(objs, next) else [];
  }

  /** Finds a DATA object by payload; with an indexed table it finds it exactly when it
      exists, and the chain guard stays silent. */
  method FindData(j: Journal, hasher: Hasher, payload: bytes) returns (r: Result<uint64>)
    ensures r.Ok? && r.value != 0 ==> Holds(j, payload, r.value)
    ensures HashIndexed(DataLinks(j), j.dataTable) && PayloadsUnique(j, hasher) && 0 !in j.data ==>
              && r.Ok? && (r.value == 0 <==> forall d :: !Holds(j, payload, d))
  {
    if |j.dataTable| == 0 {
      assert HashIndexed(DataLinks(j), j.dataTable) ==> DataLinks(j).Keys == j.data.Keys == {};
      return Ok(0);
    }
    var hash := hasher(payload);
    var head: uint64 := j.dataTable[hash % |j.dataTable|].head;
    ghost var good := HashIndexed(DataLinks(j), j.dataTable) && PayloadsUnique(j, hasher) && 0 !in j.data;
    if good {
      assert BucketOk(DataLinks(j), j.dataTable, hash % |j.dataTable|);
      assert forall d :: Holds(j, payload, d) ==> d in DataLinks(j) && DataLinks(j)[d].hash == hash;
    }
    r := WalkBucket(j, hash, payload, head);
  }

  method WalkBucket(j: Journal, hash: uint64, payload: bytes, head: uint64) returns (r: Result<uint64>)
    ensures r.Ok? && r.value != 0 ==> Holds(j, payload, r.value)
    ensures ChainOk(DataLinks(j), head) && (forall d :: Holds(j, payload, d) ==> j.data[d].hash == hash && d != 0) ==>
              && r.Ok?
              && (r.value == 0 ==> forall d :: d in Chain(DataLinks(j), head) ==> !Holds(j, payload, d))
  {
    ghost var good := ChainOk(DataLinks(j), head) && (forall d :: Holds(j, payload, d) ==> j.data[d].hash == hash && d != 0);
    var guard := new G.ChainGuard();
    var offset: uint64 := head;
    while offset != 0
      invariant good ==> Ahead(j, payload, head, offset) && guard.State() == G.FRESH
      decreases G.Budget(guard.State(), offset, false)
    {
      if offset !in j.data {
        return Err(CorruptObject);
      }
      if j.data[offset].hash == hash && j.data[offset].payload == payload {
        return Ok(offset);
      }
      if good {
        assert !Holds(j, payload, offset);
        AheadStep(j, payload, head, offset);
      }
      var next := j.data[offset].nextHash;
      ghost var before := guard.State();
      var accepted := guard.Advance(offset, next, false);
      if !accepted {
        return Err(CorruptObject);
      }
      G.BudgetFalls(before, offset, next, false);
      offset := next;
    }
    return Ok(0);
  }

  // ----- FIELD chains

  /** The field name of a payload: everything before the first '='. */
  function FieldName(payload: bytes): (name: bytes)
    ensures EQUALS !in name
    ensures name <= payload
    ensures EQUALS in payload ==> |name| < |payload| && payload[|name|] == EQUALS
  {
    if payload == [] || payload[0] == EQUALS then [] else [payload[0]] + FieldName(payload[1..])
  }

  /** The values on a FIELD's chain, for as long as its links decrease. */
  ghost function Values(data: map<uint64, DataObject>, at: uint64): seq<uint64>
    decreases at
  {
    if at == 0 || at !in data then []
    else [at] + if data[at].nextField < at then Values(data, data[at].nextField) else []
  }

  ghost predicate ValuesOk(data: map<uint64, DataObject>, at: uint64)
    decreases at
  {
    at == 0 || (at in data && data[at].nextField < at && ValuesOk(data, data[at].nextField))
  }

  ghost predicate Named(data: map<uint64, DataObject>, chain: seq<uint64>, name: bytes) {
    forall d :: d in chain ==> d in data && FieldName(data[d].payload) == name
  }

  ghost predicate FieldOk(j: Journal, f: uint64)
    requires f in j.fields
  {
    var head := j.fields[f].headData;
    head != 0 && ValuesOk(j.data, head) && Named(j.data, Values(j.data, head), j.fields[f].name)
  }

  ghost predicate OnChain(j: Journal, f: uint64, d: uint64) {
    f in j.fields && d in Values(j.data, j.fields[f].headData)
  }

  ghost predicate FieldsOk(j: Journal, fields: set<uint64>) {
    forall f :: f in fields ==> f in j.fields && FieldOk(j, f)
  }

  ghost predicate NamesDiffer(j: Journal, fields: set<uint64>) {
    forall f, f' :: f in fields && f' in fields && f in j.fields && f' in j.fields && j.fields[f].name == j.fields[f'].name ==> f == f'
  }

  ghost predicate AllOnChains(j: Journal) {
    forall d :: d in j.data ==> exists f :: OnChain(j, f, d)
  }

  /** Every FIELD name occurs once, and its chain holds only values of that name; every DATA
      object hangs on one. */
  ghost predicate FieldIndexed(j: Journal) {
    FieldsOk(j, j.fields.Keys) && NamesDiffer(j, j.fields.Keys) && AllOnChains(j)
  }

  ghost predicate Descending(s: seq<uint64>) {
    forall i, k :: 0 <= i < k < |s| ==> s[i] > s[k]
  }

  lemma {:induction false} ValuesDescend(data: map<uint64, DataObject>, at: uint64)
    ensures Descending(Values(data, at))
    ensures forall d :: d in Values(data, at) ==> d <= at && d in data
    decreases at
  {
    if at != 0 && at in data && data[at].nextField < at {
      ValuesDescend(data, data[at].nextField);
      var rest := Values(data, data[at].nextField);
      assert forall i :: 0 <= i < |rest| ==> rest[i] in rest;
    }
  }

  ghost predicate ValueWalk(data: map<uint64, DataObject>, head: uint64, path: seq<uint64>, current: uint64) {
    && (ValuesOk(data, head) <==> ValuesOk(data, current))
    && Values(data, head) == path + Values(data, current)
  }

  lemma ValueStep(data: map<uint64, DataObject>, head: uint64, path: seq<uint64>, current: uint64)
    requires ValueWalk(data, head, path, current) && current != 0 && current in data && data[current].nextField < current
    ensures ValueWalk(data, head, path + [current], data[current].nextField)
  {
    assert Values(data, current) == [current] + Values(data, data[current].nextField);
  }

  lemma ValueRejects(j: Journal, f: uint64, path: seq<uint64>, current: uint64)
    requires f in j.fields && ValueWalk(j.data, j.fields[f].headData, path, current) && current != 0
    requires current !in j.data || j.data[current].nextField >= current || FieldName(j.data[current].payload) != j.fields[f].name
    ensures !FieldOk(j, f)
  {
    if current in j.data {
      var chain := Values(j.data, j.fields[f].headData);
      assert chain[|path|] == current;
      assert current in chain;
    }
  }

  method ValidateField(j: Journal, f: uint64, seen: set<uint64>) returns (ok: bool, seen': set<uint64>)
    requires f in j.fields
    requires forall d :: d in seen ==> d in j.data && FieldName(j.data[d].payload) != j.fields[f].name
    ensures ok <==> FieldOk(j, f)
    ensures ok ==> seen' == seen + Elements(Values(j.data, j.fields[f].headData))
  {
    var field := j.fields[f];
    seen' := seen;
    if field.headData == 0 {
      return false, seen';
    }
    var current: uint64 := field.headData;
    ghost var path: seq<uint64> := [];
    while current != 0
      invariant ValueWalk(j.data, field.headData, path, current)
      invariant seen' == seen + Elements(path)
      invariant Named(j.data, path, field.name)
      invariant forall d :: d in path ==> d > current
      decreases current
    {
      if current in seen' || current !in j.data || (j.data[current].nextField != 0 && j.data[current].nextField >= current) ||
         FieldName(j.data[current].payload) != field.name
      {
        ValueRejects(j, f, path, current);
        return false, seen';
      }
      ValueStep(j.data, field.headData, path, current);
      seen' := seen' + {current};
      path := path + [current];
      current := j.data[current].nextField;
    }
    assert Values(j.data, field.headData) == path;
    ok := true;
  }

  /** The names and the values the FIELDs done so far account for. */
  ghost predicate NamesDone(j: Journal, done: set<uint64>, names: set<bytes>) {
    && done <= j.fields.Keys
    && (forall f :: f in done ==> j.fields[f].name in names)
    && (forall n :: n in names ==> exists f :: f in done && j.fields[f].name == n)
  }

  ghost predicate ValuesDone(j: Journal, done: set<uint64>, seen: set<uint64>) {
    && (forall d :: d in seen ==> d in j.data && exists f :: f in done && OnChain(j, f, d))
    && (forall f, d :: f in done && OnChain(j, f, d) ==> d in seen)
  }

  lemma SeenNamesDiffer(j: Journal, done: set<uint64>, names: set<bytes>, seen: set<uint64>, f: uint64)
    requires NamesDone(j, done, names) && ValuesDone(j, done, seen) && FieldsOk(j, done)
    requires f in j.fields && j.fields[f].name !in names
    ensures forall d :: d in seen ==> d in j.data && FieldName(j.data[d].payload) != j.fields[f].name
  {
    forall d | d in seen ensures d in j.data && FieldName(j.data[d].payload) != j.fields[f].name {
      var g :| g in done && OnChain(j, g, d);
      assert FieldOk(j, g);
    }
  }

  lemma NamesStep(j: Journal, done: set<uint64>, names: set<bytes>, f: uint64)
    requires NamesDone(j, done, names) && NamesDiffer(j, done)
    requires f in j.fields && j.fields[f].name !in names
    ensures NamesDone(j, done + {f}, names + {j.fields[f].name}) && NamesDiffer(j, done + {f})
  {
    var name := j.fields[f].name;
    forall n | n in names + {name} ensures exists g :: g in done + {f} && j.fields[g].name == n {
      if n == name {
        assert f in done + {f};
      } else {
        var g :| g in done && j.fields[g].name == n;
        assert g in done + {f};
      }
    }
  }

  lemma ValuesStep(j: Journal, done: set<uint64>, seen: set<uint64>, f: uint64, seen': set<uint64>)
    requires ValuesDone(j, done, seen) && f in j.fields && FieldOk(j, f)
    requires seen' == seen + Elements(Values(j.data, j.fields[f].headData))
    ensures ValuesDone(j, done + {f}, seen')
  {
    forall d | d in seen' ensures d in j.data && exists g :: g in done + {f} && OnChain(j, g, d) {
      if d in seen {
        var g :| g in done && OnChain(j, g, d);
        assert g in done + {f};
      } else {
        assert f in done + {f} && OnChain(j, f, d);
      }
    }
  }

  lemma ValuesAll(j: Journal, seen: set<uint64>)
    requires ValuesDone(j, j.fields.Keys, seen)
    ensures AllOnChains(j) <==> |seen| == |j.data|
  {
    assert seen <= j.data.Keys;
    if seen == j.data.Keys {
      assert |seen| == |j.data.Keys|;
    } else {
      var x :| x in j.data.Keys && x !in seen;
      SubsetSmaller(seen, j.data.Keys, x);
      assert forall f :: !OnChain(j, f, x);
    }
  }

  ghost predicate Partition(j: Journal, done: set<uint64>, names: set<bytes>, seen: set<uint64>) {
    NamesDone(j, done, names) && NamesDiffer(j, done) && ValuesDone(j, done, seen) && FieldsOk(j, done)
  }

  method AddField(j: Journal, f: uint64, names: set<bytes>, seen: set<uint64>, ghost done: set<uint64>)
    returns (ok: bool, names': set<bytes>, seen': set<uint64>)
    requires f in j.fields && f !in done && Partition(j, done, names, seen)
    ensures ok ==> Partition(j, done + {f}, names', seen')
    ensures !ok ==> !FieldIndexed(j)
  {
    names', seen' := names, seen;
    var name := j.fields[f].name;
    if name in names {
      ghost var g :| g in done && j.fields[g].name == name;
      assert g in j.fields.Keys && f in j.fields.Keys;
      FieldRejected(j, f);
      return false, names', seen';
    }
    SeenNamesDiffer(j, done, names, seen, f);
    ok, seen' := ValidateField(j, f, seen);
    if ok {
      NamesStep(j, done, names, f);
      ValuesStep(j, done, seen, f, seen');
      names' := names + {name};
    } else {
      FieldRejected(j, f);
    }
  }

  method PartitionFields(j: Journal, pending: set<uint64>, names: set<bytes>, seen: set<uint64>, ghost done: set<uint64>)
    returns (ok: bool, ghost names': set<bytes>, seen': set<uint64>)
    requires done + pending == j.fields.Keys && done !! pending && Partition(j, done, names, seen)
    ensures ok ==> Partition(j, j.fields.Keys, names', seen')
    ensures !ok ==> !FieldIndexed(j)
    decreases pending
  {
    if pending == {} {
      assert done == j.fields.Keys;
      return true, names, seen;
    }
    var f :| f in pending;
    assert f in j.fields.Keys;
    var more: set<bytes>, values: set<uint64>;
    ok, more, values := AddField(j, f, names, seen, done);
    if !ok {
      return false, more, values;
    }
    ok, names', seen' := PartitionFields(j, pending - {f}, more, values, done + {f});
  }

  /** Accepts exactly the journals whose FIELD chains partition the DATA objects by name. */
  method ValidateFieldChains(j: Journal) returns (ok: bool)
    ensures ok <==> FieldIndexed(j)
  {
    ghost var names: set<bytes>;
    var seen: set<uint64>;
    ok, names, seen := PartitionFields(j, j.fields.Keys, {}, {}, {});
    if ok {
      PartitionComplete(j, j.fields.Keys, names, seen);
      ok := |seen| == |j.data|;
    }
  }

  lemma FieldRejected(j: Journal, f: uint64)
    requires f in j.fields && (!FieldOk(j, f) || !NamesDiffer(j, j.fields.Keys))
    ensures !FieldIndexed(j)
  {
    assert FieldsOk(j, j.fields.Keys) ==> FieldOk(j, f);
  }

  lemma PartitionComplete(j: Journal, done: set<uint64>, names: set<bytes>, seen: set<uint64>)
    requires Partition(j, done, names, seen) && done == j.fields.Keys
    ensures FieldIndexed(j) <==> |seen| == |j.data|
  {
    ValuesAll(j, seen);
  }

  method WalkValues(j: Journal, head: uint64) returns (r: Result<seq<uint64>>)
    ensures ValuesOk(j.data, head) ==> r == Ok(Values(j.data, head))
  {
    var guard := new G.ChainGuard();
    var offset: uint64, visited: seq<uint64> := head, [];
    ghost var good := ValuesOk(j.data, head);
    while offset != 0
      invariant good ==> ValueWalk(j.data, head, visited, offset) && guard.State() == G.FRESH
      decreases G.Budget(guard.State(), offset, true)
    {
      if offset !in j.data {
        return Err(CorruptObject);
      }
      var next := j.data[offset].nextField;
      if good {
        ValueStep(j.data, head, visited, offset);
      }
      ghost var before := guard.State();
      var accepted := guard.Advance(offset, next, true);
      if !accepted {
        return Err(CorruptObject);
      }
      G.BudgetFalls(before, offset, next, true);
      visited := visited + [offset];
      offset := next;
    }
    assert good ==> Values(j.data, head) == visited;
    return Ok(visited);
  }

  /** Lists the DATA objects of one FIELD object's chain under the chain guard. With indexed
      FIELD chains that is every value of the name, each once, and the guard stays silent. */
  method VisitField(j: Journal, f: uint64) returns (r: Result<seq<uint64>>)
    requires f in j.fields
    ensures FieldIndexed(j) ==>
              && r.Ok? && Descending(r.value)
              && forall d :: d in r.value <==> d in j.data && FieldName(j.data[d].payload) == j.fields[f].name
  {
    r := WalkValues(j, j.fields[f].headData);
    if FieldIndexed(j) { FieldComplete(j, f); }
    ValuesDescend(j.data, j.fields[f].headData);
  }

  lemma FieldComplete(j: Journal, f: uint64)
    requires FieldIndexed(j) && f in j.fields
    ensures ValuesOk(j.data, j.fields[f].headData)
    ensures forall d :: d in Values(j.data, j.fields[f].headData) <==> d in j.data && FieldName(j.data[d].payload) == j.fields[f].name
  {
    forall d | d in j.data && FieldName(j.data[d].payload) == j.fields[f].name
      ensures d in Values(j.data, j.fields[f].headData)
    {
      var g :| OnChain(j, g, d);
      assert FieldOk(j, g);
    }
    assert FieldOk(j, f);
  }
}
