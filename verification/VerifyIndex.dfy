/** The strict verifier as a whole: duplicate payloads while objects are read
    (go/journal/verify_index.go:364-403), then the hash tables, the FIELD chains and the posting
    lists (go/journal/verify_index.go:142-189). */
module VerifyIndex {
  import opened JournalGraph
  import opened StrictSpec
  import opened StrictIndex
  import opened HashIndex
  import opened FilterMeaning
  import opened CallMeaning
  import opened FilterStep
  import opened FilteredReading

  // ----- duplicate payloads

  /** A digest of payloads; different payloads may share one. */
  type Digest = bytes -> bytes

  /** The first DATA object with a digest, and the later ones that collide with it. */
  datatype Identity = Identity(offset: uint64, collisions: seq<uint64>)

  ghost predicate Repeats(data: map<uint64, DataObject>, done: set<uint64>, offset: uint64)
    requires offset in data && done <= data.Keys
  {
    exists d :: d in done && data[d].payload == data[offset].payload
  }

  ghost predicate AllDistinct(data: map<uint64, DataObject>, done: set<uint64>)
    requires done <= data.Keys
  {
    forall d, e :: d in done && e in done && data[d].payload == data[e].payload ==> d == e
  }

  class PayloadIndex {
    const data: map<uint64, DataObject>
    const digest: Digest
    var payloads: map<bytes, Identity>
    ghost var done: set<uint64>

    constructor (data: map<uint64, DataObject>, digest: Digest)
      ensures this.data == data && done == {} && Valid()
    {
      this.data, this.digest := data, digest;
      payloads, done := map[], {};
    }

    ghost predicate Listed(d: uint64)
      requires d in data
      reads this
    {
      var k := digest(data[d].payload);
      k in payloads && (d == payloads[k].offset || d in payloads[k].collisions)
    }

    ghost predicate Sound(k: bytes)
      requires k in payloads
      reads this
    {
      payloads[k].offset in done && forall d :: d in payloads[k].collisions ==> d in done
    }

    /** Every object read so far is listed under its digest, and nothing else is listed. */
    ghost predicate Valid()
      reads this
    {
      && done <= data.Keys
      && (forall d :: d in done ==> Listed(d))
      && (forall k :: k in payloads ==> Sound(k))
    }

    /** Compares a payload with every earlier one of the same digest. */
    method Compare(offset: uint64, known: Identity) returns (repeated: bool)
      requires offset in data && known.offset in data && forall d :: d in known.collisions ==> d in data
      ensures repeated <==> exists d :: (d == known.offset || d in known.collisions) && data[d].payload == data[offset].payload
    {
      if data[known.offset].payload == data[offset].payload { return true; }
      for i := 0 to |known.collisions|
        invariant forall k :: 0 <= k < i ==> data[known.collisions[k]].payload != data[offset].payload
      {
        if data[known.collisions[i]].payload == data[offset].payload { return true; }
      }
      return false;
    }

    /** Lists a new object under its digest. */
    method List(offset: uint64, k: bytes, entry: Identity)
      requires Valid() && offset in data && k == digest(data[offset].payload)
      requires if k in payloads then entry == payloads[k].(collisions := payloads[k].collisions + [offset])
               else entry == Identity(offset, [])
      modifies this
      ensures Valid() && done == old(done) + {offset}
    {
      label before:
      payloads := payloads[k := entry];
      done := done + {offset};
      forall d | d in done ensures Listed(d) {
        if d != offset { assert old@before(Listed(d)); }
      }
      forall x | x in payloads ensures Sound(x) {
        if x in old@before(payloads) { assert old@before(Sound(x)); }
      }
    }

    /** Accepts an object exactly when no object read before it has its payload, whatever
        digests collide. */
    method Add(offset: uint64) returns (ok: bool)
      requires Valid() && offset in data && offset !in done
      modifies this
      ensures ok <==> !Repeats(data, old(done), offset)
      ensures ok ==> Valid() && done == old(done) + {offset}
    {
      var k := digest(data[offset].payload);
      var entry := Identity(offset, []);
      if k in payloads {
        assert Sound(k);
        var known := payloads[k];
        var repeated := Compare(offset, known);
        if repeated { return false; }
        entry := known.(collisions := known.collisions + [offset]);
      }
      NotRepeated(offset, k);
      List(offset, k, entry);
      return true;
    }

    lemma NotRepeated(offset: uint64, k: bytes)
      requires Valid() && offset in data && k == digest(data[offset].payload)
      requires k in payloads ==>
                 forall d :: d in data && (d == payloads[k].offset || d in payloads[k].collisions) ==> data[d].payload != data[offset].payload
      ensures !Repeats(data, done, offset)
    {
      forall d | d in done ensures data[d].payload != data[offset].payload {
        assert Listed(d);
      }
    }
  }

  /** `order` lists every DATA object once. */
  ghost predicate Lists(order: seq<uint64>, data: map<uint64, DataObject>) {
    (forall i, k :: 0 <= i < k < |order| ==> order[i] != order[k]) && Elements(order) == data.Keys
  }

  lemma NextListed(order: seq<uint64>, data: map<uint64, DataObject>, i: nat)
    requires i < |order| && Lists(order, data)
    ensures order[i] in data && order[i] !in Elements(order[..i])
    ensures Elements(order[..i+1]) == Elements(order[..i]) + {order[i]}
  {
    assert order[i] in Elements(order);
    TakeOneMore(order, i);
  }

  /** One more object keeps all payloads distinct exactly when it repeats none. */
  lemma DistinctStep(data: map<uint64, DataObject>, done: set<uint64>, d: uint64)
    requires done <= data.Keys && d in data && d !in done && AllDistinct(data, done)
    ensures Repeats(data, done, d) ==> !AllDistinct(data, data.Keys)
    ensures !Repeats(data, done, d) ==> AllDistinct(data, done + {d})
  {
  }

  /** A DATA object that can be read: its hash is right and its payload is the value of a field. */
  ghost predicate Readable(o: DataObject, hasher: Hasher) {
    o.hash == hasher(o.payload) && exists name, value :: FieldValue(o.payload, name, value)
  }

  ghost predicate FieldValue(payload: bytes, name: bytes, value: bytes) {
    name != [] && EQUALS !in name && payload == name + [EQUALS] + value
  }

  lemma NamedPayload(payload: bytes)
    ensures EQUALS in payload && FieldName(payload) != [] <==> exists name, value :: FieldValue(payload, name, value)
  {
    if EQUALS in payload && FieldName(payload) != [] {
      var name := FieldName(payload);
      assert FieldValue(payload, name, payload[|name| + 1..]);
    }
    if name, value :| FieldValue(payload, name, value) {
      assert payload[|name|] == EQUALS && payload[0] == name[0];
    }
  }

  ghost predicate AllReadable(data: map<uint64, DataObject>, done: set<uint64>, hasher: Hasher)
    requires done <= data.Keys
  {
    forall d :: d in done ==> Readable(data[d], hasher)
  }

  /** The objects read so far are readable and differ in their payloads. */
  ghost predicate SoundData(data: map<uint64, DataObject>, done: set<uint64>, hasher: Hasher)
    requires done <= data.Keys
  {
    AllReadable(data, done, hasher) && AllDistinct(data, done)
  }

  lemma SoundStep(data: map<uint64, DataObject>, done: set<uint64>, d: uint64, hasher: Hasher)
    requires done <= data.Keys && d in data && d !in done && SoundData(data, done, hasher)
    ensures Readable(data[d], hasher) && !Repeats(data, done, d) ==> SoundData(data, done + {d}, hasher)
    ensures !Readable(data[d], hasher) || Repeats(data, done, d) ==> !SoundData(data, data.Keys, hasher)
  {
    DistinctStep(data, done, d);
  }

  /** Reads one DATA object. */
  method ReadData(index: PayloadIndex, hasher: Hasher, offset: uint64) returns (ok: bool)
    requires index.Valid() && offset in index.data && offset !in index.done
    modifies index
    ensures ok <==> Readable(index.data[offset], hasher) && !Repeats(index.data, old(index.done), offset)
    ensures ok ==> index.Valid() && index.done == old(index.done) + {offset}
  {
    var o := index.data[offset];
    NamedPayload(o.payload);
    if o.hash != hasher(o.payload) || EQUALS !in o.payload || FieldName(o.payload) == [] { return false; }
    ok := index.Add(offset);
  }

  /** Reads the DATA objects in file order; accepts exactly when every one is readable and no
      payload occurs twice. */
  method UniquePayloads(data: map<uint64, DataObject>, hasher: Hasher, digest: Digest, order: seq<uint64>) returns (ok: bool)
    requires Lists(order, data)
    ensures ok <==> SoundData(data, data.Keys, hasher)
  {
    var index := new PayloadIndex(data, digest);
    for i := 0 to |order|
      invariant index.Valid() && index.data == data && fresh(index)
      invariant index.done == Elements(order[..i]) && SoundData(data, index.done, hasher)
    {
      NextListed(order, data, i);
      SoundStep(data, index.done, order[i], hasher);
      ok := ReadData(index, hasher, order[i]);
      if !ok { return; }
    }
    assert order[..|order|] == order;
    return true;
  }

  ghost predicate FieldsReadable(j: Journal, hasher: Hasher) {
    forall f :: f in j.fields ==> j.fields[f].name != [] && j.fields[f].hash == hasher(j.fields[f].name)
  }

  /** Reads the FIELD objects; accepts exactly when every one has a name and the right hash. */
  method ReadFields(j: Journal, hasher: Hasher) returns (ok: bool)
    ensures ok <==> FieldsReadable(j, hasher)
  {
    var pending := j.fields.Keys;
    while pending != {}
      invariant pending <= j.fields.Keys
      invariant forall f :: f in j.fields && f !in pending ==> j.fields[f].name != [] && j.fields[f].hash == hasher(j.fields[f].name)
    {
      var f :| f in pending;
      pending := pending - {f};
      if j.fields[f].name == [] || j.fields[f].hash != hasher(j.fields[f].name) { return false; }
    }
    return true;
  }

  // ----- the whole index

  /** Everything strict verification promises about the native indexes. */
  ghost predicate StrictIndexed(j: Journal, hasher: Hasher) {
    && SoundData(j.data, j.data.Keys, hasher) && FieldsReadable(j, hasher)
    && HashIndexed(DataLinks(j), j.dataTable) && HashIndexed(FieldLinks(j), j.fieldTable)
    && FieldIndexed(j) && StrictPostings(j)
  }

  /** Strict verification accepts a parsed file exactly when all its indexes are sound. */
  method VerifyStrict(j: Journal, hasher: Hasher, digest: Digest, order: seq<uint64>) returns (ok: bool)
    requires Parsed(j)
    requires Lists(order, j.data)
    ensures ok <==> StrictIndexed(j, hasher)
  {
    ok := UniquePayloads(j.data, hasher, digest, order);
    if !ok { return; }
    ok := ReadFields(j, hasher);
    if !ok { return; }
    ok := ValidateTable(DataLinks(j), j.dataTable);
    if !ok { return; }
    ok := ValidateTable(FieldLinks(j), j.fieldTable);
    if !ok { return; }
    ok := ValidateFieldChains(j);
    if !ok { return; }
    var v := new GraphVerifier(j);
    ok := v.ValidatePostings();
  }

  /** An accepted file finds every payload in at most one DATA object. */
  lemma StrictUnique(j: Journal, hasher: Hasher)
    requires SoundData(j.data, j.data.Keys, hasher)
    ensures PayloadsUnique(j, hasher)
  {
  }

  /** A file that strict verification accepted answers every filtered reading row by row. */
  method VerifyThenRead(j: Journal, hasher: Hasher, digest: Digest, order: seq<uint64>, calls: seq<Call>, ops: seq<Operation>)
    returns (ok: bool, r: Result<Reading>)
    requires Parsed(j) && j.dataTable != []
    requires SeeksTime(ops) ==> TimesAscend(j, GlobalList(j))
    requires Lists(order, j.data)
    ensures ok <==> StrictIndexed(j, hasher)
    ensures ok && Asks(calls) ==> r == Ok(Steps(Trace(RowsAsked(j, calls), j, GlobalList(j), Row(-1), ops)))
  {
    r := Ok(NoFilter);
    ok := VerifyStrict(j, hasher, digest, order);
    if ok {
      StrictUnique(j, hasher);
      r := ReadFiltered(j, hasher, calls, ops);
    }
  }
}
