/** What facets and histograms count, row by row, and when the two ways of computing them agree
    (go/journal/explorer.go:1234-1445, 1716-1806). */
module ExplorerSpec {
  import opened JournalGraph
  import opened StrictSpec
  import opened HashIndex

  /** The label of rows that lack a field. */
  const UNSET: bytes := [45]

  type Tally = map<bytes, nat>

  function At(t: Tally, text: bytes): nat {
    if text in t then t[text] else 0
  }

  function Add(t: Tally, text: bytes, n: nat): Tally {
    t[text := At(t, text) + n]
  }

  function AddSome(t: Tally, text: bytes, n: nat): Tally {
    if n == 0 then t else Add(t, text, n)
  }

  ghost predicate Positive(t: Tally) {
    forall text :: text in t ==> t[text] > 0
  }

  /** The payload is a value of the field. */
  predicate IsValue(payload: bytes, field: bytes) {
    EQUALS in payload && FieldName(payload) == field
  }

  function Label(payload: bytes): bytes
    requires EQUALS in payload
  {
    payload[|FieldName(payload)| + 1..]
  }

  function PayloadOf(field: bytes, text: bytes): bytes {
    field + [EQUALS] + text
  }

  lemma {:induction false} NameOfPayload(field: bytes, text: bytes)
    requires EQUALS !in field
    ensures FieldName(PayloadOf(field, text)) == field
    ensures IsValue(PayloadOf(field, text), field) && Label(PayloadOf(field, text)) == text
    decreases |field|
  {
    var p := PayloadOf(field, text);
    assert p[|field|] == EQUALS;
    if field != [] {
      assert field[0] in field && p[1..] == PayloadOf(field[1..], text);
      NameOfPayload(field[1..], text);
    }
  }

  lemma PayloadOfLabel(payload: bytes)
    requires EQUALS in payload
    ensures payload == PayloadOf(FieldName(payload), Label(payload))
  {
  }

  // ----- counts over rows

  function Items(j: Journal, e: uint64): seq<uint64> {
    if e in j.entries then j.entries[e].items else []
  }

  /** How often the rows refer to a DATA object: a row that repeats a reference counts again. */
  ghost function RefCount(j: Journal, rows: seq<uint64>, d: uint64): nat {
    if rows == [] then 0
    else RefCount(j, rows[..|rows|-1], d) + multiset(Items(j, rows[|rows|-1]))[d]
  }

  /** How many of the rows contain a DATA object. */
  ghost function RowCount(j: Journal, rows: seq<uint64>, d: uint64): nat {
    if rows == [] then 0
    else RowCount(j, rows[..|rows|-1], d) + if Contains(j, rows[|rows|-1], d) then 1 else 0
  }

  ghost predicate HasField(j: Journal, e: uint64, field: bytes) {
    exists d :: Contains(j, e, d) && d in j.data && IsValue(j.data[d].payload, field)
  }

  /** How many of the rows have no value of a field. */
  ghost function UnsetCount(j: Journal, rows: seq<uint64>, field: bytes): nat {
    if rows == [] then 0
    else UnsetCount(j, rows[..|rows|-1], field) + if HasField(j, rows[|rows|-1], field) then 0 else 1
  }

  /** The DATA object that holds a value, or 0. */
  ghost function DataFor(j: Journal, field: bytes, text: bytes): uint64 {
    if EQUALS !in field && exists d: uint64 :: Holds(j, PayloadOf(field, text), d) then (var d: uint64 :| Holds(j, PayloadOf(field, text), d); d) else 0
  }

  ghost function UnsetPart(j: Journal, rows: seq<uint64>, field: bytes, text: bytes): nat {
    if text == UNSET then UnsetCount(j, rows, field) else 0
  }

  /** What counting postings yields: every row once per value. */
  ghost predicate PostingTally(t: Tally, j: Journal, rows: seq<uint64>, field: bytes) {
    Positive(t) && forall text :: At(t, text) == RowCount(j, rows, DataFor(j, field, text)) + UnsetPart(j, rows, field, text)
  }

  /** What counting references yields: every reference of every row. */
  ghost predicate ReferenceTally(t: Tally, j: Journal, rows: seq<uint64>, field: bytes) {
    Positive(t) && forall text :: At(t, text) == RefCount(j, rows, DataFor(j, field, text)) + UnsetPart(j, rows, field, text)
  }

  lemma SameTally(s: Tally, t: Tally)
    requires Positive(s) && Positive(t) && forall text :: At(s, text) == At(t, text)
    ensures s == t
  {
    forall text | text in s ensures text in t && s[text] == t[text] {
      assert At(s, text) == At(t, text);
    }
    forall text | text in t ensures text in s {
      assert At(s, text) == At(t, text);
    }
    assert s.Keys == t.Keys;
  }

  // ----- when the two agree

  /** Row `i` refers to `d` at most once. */
  ghost predicate SingleRef(j: Journal, rows: seq<uint64>, d: uint64) {
    forall i :: 0 <= i < |rows| ==> multiset(Items(j, rows[i]))[d] <= 1
  }

  /** No row repeats a reference to a value of the field. */
  ghost predicate NoRepeats(j: Journal, rows: seq<uint64>, field: bytes) {
    forall d :: d in j.data && IsValue(j.data[d].payload, field) ==> SingleRef(j, rows, d)
  }

  lemma {:induction false} CountsCompare(j: Journal, rows: seq<uint64>, d: uint64)
    ensures RowCount(j, rows, d) <= RefCount(j, rows, d)
    ensures RowCount(j, rows, d) == RefCount(j, rows, d) <==> SingleRef(j, rows, d)
    decreases |rows|
  {
    if rows != [] {
      var n := |rows| - 1;
      CountsCompare(j, rows[..n], d);
      var e := rows[n];
      assert Contains(j, e, d) <==> multiset(Items(j, e))[d] > 0 by {
        assert d in Items(j, e) <==> d in multiset(Items(j, e));
      }
      assert rows == rows[..n] + [e];
      assert SingleRef(j, rows, d) <==> SingleRef(j, rows[..n], d) && multiset(Items(j, e))[d] <= 1;
    }
  }

  lemma HolderOfValue(j: Journal, field: bytes, d: uint64, hasher: Hasher)
    requires PayloadsUnique(j, hasher) && d in j.data && IsValue(j.data[d].payload, field)
    ensures DataFor(j, field, Label(j.data[d].payload)) == d
  {
    PayloadOfLabel(j.data[d].payload);
    assert Holds(j, PayloadOf(field, Label(j.data[d].payload)), d);
  }

  /** Counting postings and counting references give the same tally exactly when no row repeats a
      reference to a value of the field. */
  lemma TalliesAgree(s: Tally, t: Tally, j: Journal, rows: seq<uint64>, field: bytes, hasher: Hasher)
    requires PayloadsUnique(j, hasher) && 0 !in j.data && ReferencesResolve(j)
    requires PostingTally(s, j, rows, field) && ReferenceTally(t, j, rows, field)
    ensures s == t <==> NoRepeats(j, rows, field)
  {
    if NoRepeats(j, rows, field) {
      forall text ensures At(s, text) == At(t, text) {
        var d := DataFor(j, field, text);
        CountsCompare(j, rows, d);
        LabelSingle(j, rows, field, text);
      }
      SameTally(s, t);
    } else {
      var d :| d in j.data && IsValue(j.data[d].payload, field) && !SingleRef(j, rows, d);
      var text := Label(j.data[d].payload);
      HolderOfValue(j, field, d, hasher);
      CountsCompare(j, rows, d);
      assert At(s, text) < At(t, text);
    }
  }

  lemma LabelSingle(j: Journal, rows: seq<uint64>, field: bytes, text: bytes)
    requires NoRepeats(j, rows, field) && 0 !in j.data && ReferencesResolve(j)
    ensures SingleRef(j, rows, DataFor(j, field, text))
  {
    var d := DataFor(j, field, text);
    if EQUALS !in field { NameOfPayload(field, text); }
    if d == 0 {
      forall i | 0 <= i < |rows| ensures multiset(Items(j, rows[i]))[d] <= 1 {
        assert !Contains(j, rows[i], 0);
        assert 0 !in multiset(Items(j, rows[i]));
      }
    }
  }

  // ----- counts as sizes of sets

  ghost function RowsWith(j: Journal, rows: seq<uint64>, d: uint64): set<uint64> {
    set e | e in rows && Contains(j, e, d)
  }

  ghost function RowsOf(j: Journal, rows: seq<uint64>, field: bytes): set<uint64> {
    set e | e in rows && HasField(j, e, field)
  }

  lemma LastRow(rows: seq<uint64>, n: nat)
    requires Ascending(rows) && |rows| == n + 1
    ensures Ascending(rows[..n]) && rows[n] !in rows[..n] && forall e :: e in rows <==> e in rows[..n] || e == rows[n]
  {
    AscendingInit(rows, n);
    assert rows == rows[..n] + [rows[n]];
  }

  lemma {:induction false} RowCountIsSize(j: Journal, rows: seq<uint64>, d: uint64)
    requires Ascending(rows)
    ensures RowCount(j, rows, d) == |RowsWith(j, rows, d)|
    decreases |rows|
  {
    if rows != [] {
      var n := |rows| - 1;
      LastRow(rows, n);
      RowCountIsSize(j, rows[..n], d);
      var more := if Contains(j, rows[n], d) then {rows[n]} else {};
      assert RowsWith(j, rows, d) == RowsWith(j, rows[..n], d) + more;
    }
  }

  lemma RowsOfStep(j: Journal, rows: seq<uint64>, n: nat, field: bytes)
    requires Ascending(rows) && |rows| == n + 1
    ensures |RowsOf(j, rows, field)| == |RowsOf(j, rows[..n], field)| + if HasField(j, rows[n], field) then 1 else 0
  {
    LastRow(rows, n);
    var before := RowsOf(j, rows[..n], field);
    if HasField(j, rows[n], field) {
      assert RowsOf(j, rows, field) == before + {rows[n]};
    } else {
      assert RowsOf(j, rows, field) == before;
    }
  }

  lemma {:induction false} UnsetIsRest(j: Journal, rows: seq<uint64>, field: bytes)
    requires Ascending(rows)
    ensures UnsetCount(j, rows, field) == |rows| - |RowsOf(j, rows, field)|
    decreases |rows|
  {
    if rows != [] {
      var n := |rows| - 1;
      LastRow(rows, n);
      UnsetIsRest(j, rows[..n], field);
      RowsOfStep(j, rows, n, field);
    }
  }

  lemma UnsetAdded(j: Journal, rows: seq<uint64>, field: bytes, t: Tally, t': Tally)
    requires Positive(t) && forall text :: At(t, text) == RowCount(j, rows, DataFor(j, field, text))
    requires t' == AddSome(t, UNSET, UnsetCount(j, rows, field))
    ensures PostingTally(t', j, rows, field)
  {
  }
}
