/** What a list of match, disjunction and conjunction calls asks for, row by row, and the
    grouping by field name that compiling a list of matches relies on. */
module FilterMeaning {
  import opened JournalGraph
  import opened StrictSpec
  import opened HashIndex

  // ----- rows

  /** Entry `e` carries the payload. */
  ghost predicate Has(j: Journal, e: uint64, payload: bytes) {
    exists d :: Contains(j, e, d) && Holds(j, payload, d)
  }

  /** One list of matches: for every field that occurs, one of its values is present. */
  ghost predicate GroupMeans(j: Journal, group: seq<bytes>, e: uint64) {
    forall m {:trigger FieldMeans(j, group, m, e)} :: m in group ==> FieldMeans(j, group, m, e)
  }

  /** The matches of `group` on the same field as `m` are alternatives. */
  ghost predicate FieldMeans(j: Journal, group: seq<bytes>, m: bytes, e: uint64) {
    exists v :: v in group && FieldName(v) == FieldName(m) && Has(j, e, v)
  }

  ghost predicate AnyMeans(j: Journal, groups: seq<seq<bytes>>, e: uint64) {
    exists g :: g in groups && GroupMeans(j, g, e)
  }

  ghost predicate AllMean(j: Journal, terms: seq<seq<seq<bytes>>>, e: uint64) {
    forall t :: t in terms ==> AnyMeans(j, t, e)
  }

  // ----- calls

  datatype Call = AddMatch(payload: bytes) | AddDisjunction | AddConjunction

  /** The terms a call sequence has closed, the groups of the open term and the open group. */
  datatype Query = Query(terms: seq<seq<seq<bytes>>>, groups: seq<seq<bytes>>, group: seq<bytes>)

  function CloseGroup(q: Query): Query {
    if q.group == [] then q else Query(q.terms, q.groups + [q.group], [])
  }

  function CloseTerm(q: Query): Query {
    if q.groups == [] then q else Query(q.terms + [q.groups], [], q.group)
  }

  function Apply(q: Query, c: Call): Query {
    match c
    case AddMatch(payload) => if EQUALS in payload then q.(group := q.group + [payload]) else q
    case AddDisjunction => CloseGroup(q)
    case AddConjunction => CloseTerm(CloseGroup(q))
  }

  function ApplyAll(calls: seq<Call>): Query {
    if calls == [] then Query([], [], [])
    else Apply(ApplyAll(calls[..|calls|-1]), calls[|calls|-1])
  }

  // ----- sorting matches by field name

  predicate LexLeq(a: bytes, b: bytes) {
    a == [] || (b != [] && (a[0] < b[0] || (a[0] == b[0] && LexLeq(a[1..], b[1..]))))
  }

  lemma {:induction false} LexTotal(a: bytes, b: bytes)
    ensures LexLeq(a, b) || LexLeq(b, a)
  {
    if a != [] && b != [] { LexTotal(a[1..], b[1..]); }
  }

  lemma {:induction false} LexAntisymmetric(a: bytes, b: bytes)
    requires LexLeq(a, b) && LexLeq(b, a)
    ensures a == b
  {
    if a != [] {
      LexAntisymmetric(a[1..], b[1..]);
      assert a == [a[0]] + a[1..];
      assert b == [b[0]] + b[1..];
    }
  }

  lemma {:induction false} LexTransitive(a: bytes, b: bytes, c: bytes)
    requires LexLeq(a, b) && LexLeq(b, c)
    ensures LexLeq(a, c)
  {
    if a != [] && a[0] == b[0] == c[0] { LexTransitive(a[1..], b[1..], c[1..]); }
  }

  ghost predicate NamesSorted(ms: seq<bytes>) {
    forall i, k :: 0 <= i < k < |ms| ==> LexLeq(FieldName(ms[i]), FieldName(ms[k]))
  }

  function Insert(ms: seq<bytes>, m: bytes): seq<bytes> {
    if ms == [] then [m]
    else if LexLeq(FieldName(ms[0]), FieldName(m)) then [ms[0]] + Insert(ms[1..], m)
    else [m] + ms
  }

  /** A stable sort by field name. */
  function SortByName(ms: seq<bytes>): seq<bytes> {
    if ms == [] then [] else Insert(SortByName(ms[..|ms|-1]), ms[|ms|-1])
  }

  lemma {:induction false} InsertMembers(ms: seq<bytes>, m: bytes)
    ensures forall v :: v in Insert(ms, m) <==> v in ms || v == m
  {
    if ms != [] {
      InsertMembers(ms[1..], m);
      assert ms == [ms[0]] + ms[1..];
    }
  }

  lemma {:induction false} InsertSorted(ms: seq<bytes>, m: bytes)
    requires NamesSorted(ms)
    ensures NamesSorted(Insert(ms, m))
  {
    if ms != [] {
      var name := FieldName(m);
      if LexLeq(FieldName(ms[0]), name) {
        InsertSorted(ms[1..], m);
        InsertMembers(ms[1..], m);
        var rest := Insert(ms[1..], m);
        forall i | 0 <= i < |rest| ensures LexLeq(FieldName(ms[0]), FieldName(rest[i])) {
          assert rest[i] in rest;
          if rest[i] != m {
            var k :| 0 <= k < |ms[1..]| && ms[1..][k] == rest[i];
            assert ms[k+1] == rest[i];
          }
        }
      } else {
        LexTotal(FieldName(ms[0]), name);
        forall i | 0 <= i < |ms| ensures LexLeq(name, FieldName(ms[i])) {
          if i > 0 { LexTransitive(name, FieldName(ms[0]), FieldName(ms[i])); }
        }
      }
    }
  }

  /** The matches of one field, in order. */
  ghost function OfName(ms: seq<bytes>, name: bytes): seq<bytes> {
    if ms == [] then [] else IfNamed(ms[0], name) + OfName(ms[1..], name)
  }

  ghost function IfNamed(m: bytes, name: bytes): seq<bytes> {
    if FieldName(m) == name then [m] else []
  }

  lemma {:induction false} OfNameAppended(ms: seq<bytes>, m: bytes, name: bytes)
    ensures OfName(ms + [m], name) == OfName(ms, name) + IfNamed(m, name)
  {
    var more := ms + [m];
    if ms == [] {
      assert more[1..] == [] && OfName(more[1..], name) == [];
    } else {
      var rest := ms[1..];
      OfNameAppended(rest, m, name);
      assert more[1..] == rest + [m] && more[0] == ms[0];
      ThreeParts(IfNamed(ms[0], name), OfName(rest, name), IfNamed(m, name));
    }
  }

  lemma {:induction false} NoneOfName(ms: seq<bytes>, name: bytes)
    requires forall i :: 0 <= i < |ms| ==> FieldName(ms[i]) != name
    ensures OfName(ms, name) == []
  {
    if ms != [] { NoneOfName(ms[1..], name); }
  }

  lemma InsertedBefore(ms: seq<bytes>, name: bytes)
    requires NamesSorted(ms) && ms != [] && !LexLeq(FieldName(ms[0]), name)
    ensures forall i :: 0 <= i < |ms| ==> FieldName(ms[i]) != name
  {
    LexTotal(name, name);
  }

  /** Inserting a match puts it after the matches of its field and moves no other. */
  lemma {:induction false} InsertKeeps(ms: seq<bytes>, m: bytes, name: bytes)
    requires NamesSorted(ms)
    ensures OfName(Insert(ms, m), name) == OfName(ms, name) + IfNamed(m, name)
  {
    if ms == [] {
      OfNameFirst(m, [], name);
    } else if LexLeq(FieldName(ms[0]), FieldName(m)) {
      InsertKeeps(ms[1..], m, name);
      OfNameFirst(ms[0], Insert(ms[1..], m), name);
      ThreeParts(IfNamed(ms[0], name), OfName(ms[1..], name), IfNamed(m, name));
    } else {
      OfNameFirst(m, ms, name);
      PutInFront(ms, m, name);
    }
  }

  lemma PutInFront(ms: seq<bytes>, m: bytes, name: bytes)
    requires NamesSorted(ms) && ms != [] && !LexLeq(FieldName(ms[0]), FieldName(m))
    ensures IfNamed(m, name) + OfName(ms, name) == OfName(ms, name) + IfNamed(m, name)
  {
    if FieldName(m) == name {
      InsertedBefore(ms, FieldName(m));
      NoneOfName(ms, name);
    }
  }

  lemma OfNameFirst(m: bytes, ms: seq<bytes>, name: bytes)
    ensures OfName([m] + ms, name) == IfNamed(m, name) + OfName(ms, name)
  {
    assert ([m] + ms)[1..] == ms;
  }

  lemma ThreeParts(a: seq<bytes>, b: seq<bytes>, c: seq<bytes>)
    ensures a + (b + c) == (a + b) + c
  {
  }

  /** The sort is one: by field name, keeping the matches of every field and their order. */
  lemma {:induction false} SortSorts(ms: seq<bytes>)
    ensures NamesSorted(SortByName(ms))
    ensures forall v :: v in SortByName(ms) <==> v in ms
    ensures forall name :: OfName(SortByName(ms), name) == OfName(ms, name)
  {
    if ms != [] {
      var n := |ms| - 1;
      SortSorts(ms[..n]);
      InsertSorted(SortByName(ms[..n]), ms[n]);
      InsertMembers(SortByName(ms[..n]), ms[n]);
      assert ms == ms[..n] + [ms[n]];
      forall name ensures OfName(SortByName(ms), name) == OfName(ms, name) {
        InsertKeeps(SortByName(ms[..n]), ms[n], name);
        OfNameAppended(ms[..n], ms[n], name);
      }
    }
  }

  lemma GroupMeansSameMembers(j: Journal, a: seq<bytes>, b: seq<bytes>, e: uint64)
    requires forall v :: v in a <==> v in b
    ensures GroupMeans(j, a, e) <==> GroupMeans(j, b, e)
  {
    if GroupMeans(j, a, e) {
      forall m | m in b ensures FieldMeans(j, b, m, e) {
        assert FieldMeans(j, a, m, e);
        var v :| v in a && FieldName(v) == FieldName(m) && Has(j, e, v);
      }
    }
    if GroupMeans(j, b, e) {
      forall m | m in a ensures FieldMeans(j, a, m, e) {
        assert FieldMeans(j, b, m, e);
        var v :| v in b && FieldName(v) == FieldName(m) && Has(j, e, v);
      }
    }
  }

  /** No field has matches on both sides of `k`. */
  ghost predicate Cut(ms: seq<bytes>, k: nat) {
    k <= |ms| && forall i, l :: 0 <= i < k <= l < |ms| ==> FieldName(ms[i]) != FieldName(ms[l])
  }

  /** In sorted order a run of equal names that is followed by another name is complete. */
  lemma RunEndsAtCut(ms: seq<bytes>, start: nat, end: nat)
    requires NamesSorted(ms) && Cut(ms, start) && start < end <= |ms|
    requires forall i :: start <= i < end ==> FieldName(ms[i]) == FieldName(ms[start])
    requires end < |ms| ==> FieldName(ms[end]) != FieldName(ms[start])
    ensures Cut(ms, end)
  {
    forall i, l | 0 <= i < end <= l < |ms| ensures FieldName(ms[i]) != FieldName(ms[l]) {
      if start <= i && FieldName(ms[l]) == FieldName(ms[start]) && end < l {
        assert LexLeq(FieldName(ms[start]), FieldName(ms[end])) && LexLeq(FieldName(ms[end]), FieldName(ms[l]));
        LexAntisymmetric(FieldName(ms[start]), FieldName(ms[end]));
      }
    }
  }

  ghost predicate AnyHas(j: Journal, run: seq<bytes>, e: uint64) {
    exists v :: v in run && Has(j, e, v)
  }

  /** Appending a complete run of one field adds one alternative list to the meaning. */
  lemma GroupGrows(j: Journal, ms: seq<bytes>, start: nat, end: nat, e: uint64)
    requires Cut(ms, start) && start < end <= |ms|
    requires forall i :: start <= i < end ==> FieldName(ms[i]) == FieldName(ms[start])
    ensures GroupMeans(j, ms[..end], e) <==> GroupMeans(j, ms[..start], e) && AnyHas(j, ms[start..end], e)
  {
    var before, run, all := ms[..start], ms[start..end], ms[..end];
    assert all == before + run;
    assert forall v :: v in run ==> FieldName(v) == FieldName(ms[start]);
    assert forall v, w :: v in before && w in run ==> FieldName(v) != FieldName(w);
    if GroupMeans(j, all, e) {
      assert ms[start] in run;
      assert FieldMeans(j, all, ms[start], e);
      forall m | m in before ensures FieldMeans(j, before, m, e) {
        assert FieldMeans(j, all, m, e);
      }
    }
    if GroupMeans(j, before, e) && AnyHas(j, run, e) {
      forall m | m in all ensures FieldMeans(j, all, m, e) {
        if m in before {
          assert FieldMeans(j, before, m, e);
        } else {
          var v :| v in run && Has(j, e, v);
          assert v in all;
        }
      }
    }
  }
}
