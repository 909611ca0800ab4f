/** What a list of match, disjunction and conjunction calls means, read off the list itself: a
    conjunction separates terms, a disjunction separates the groups of a term
    (go/journal/reader_filter.go:36-130). */
module CallMeaning {
  import opened JournalGraph
  import opened FilterMeaning

  // ----- reading the list of calls

  /** Where a call first occurs, or the length of the list. */
  ghost function First(calls: seq<Call>, c: Call): (i: nat)
    ensures i <= |calls| && c !in calls[..i] && (i < |calls| ==> calls[i] == c)
    ensures c in calls ==> i < |calls|
  {
    if calls == [] || calls[0] == c then 0
    else
      assert calls == [calls[0]] + calls[1..];
      var i := First(calls[1..], c);
      assert calls[..i+1] == [calls[0]] + calls[1..][..i];
      i + 1
  }

  ghost function UpTo(calls: seq<Call>, c: Call): (s: seq<Call>)
    requires c in calls
    ensures |s| < |calls|
  {
    calls[..First(calls, c)]
  }

  ghost function Past(calls: seq<Call>, c: Call): (s: seq<Call>)
    requires c in calls
    ensures |s| < |calls| && calls == UpTo(calls, c) + [c] + s
  {
    calls[First(calls, c) + 1..]
  }

  /** The payload of a match that has a field name. */
  ghost function Usable(c: Call): seq<bytes> {
    if c.AddMatch? && EQUALS in c.payload then [c.payload] else []
  }

  ghost function Asked(calls: seq<Call>): seq<bytes> {
    if calls == [] then [] else Asked(calls[..|calls|-1]) + Usable(calls[|calls|-1])
  }

  /** The calls contain a match with a field name. */
  predicate Asks(calls: seq<Call>) {
    exists i :: 0 <= i < |calls| && calls[i].AddMatch? && EQUALS in calls[i].payload
  }

  /** One group: a value for each of its fields. */
  ghost predicate GroupAsked(j: Journal, calls: seq<Call>, e: uint64) {
    Asked(calls) != [] && GroupMeans(j, Asked(calls), e)
  }

  /** Groups with a disjunction between them are alternatives. */
  ghost predicate SomeGroupAsked(j: Journal, calls: seq<Call>, e: uint64)
    decreases |calls|
  {
    if AddDisjunction in calls
    then SomeGroupAsked(j, UpTo(calls, AddDisjunction), e) || SomeGroupAsked(j, Past(calls, AddDisjunction), e)
    else GroupAsked(j, calls, e)
  }

  /** Terms with a conjunction between them must all hold; one without a match asks nothing. */
  ghost predicate RowAsked(j: Journal, calls: seq<Call>, e: uint64)
    decreases |calls|
  {
    if AddConjunction in calls
    then RowAsked(j, UpTo(calls, AddConjunction), e) && RowAsked(j, Past(calls, AddConjunction), e)
    else Asks(calls) ==> SomeGroupAsked(j, calls, e)
  }

  // ----- what the calls leave behind

  /** What a complete list of calls asks for. */
  function Terms(calls: seq<Call>): seq<seq<seq<bytes>>> {
    CloseTerm(CloseGroup(ApplyAll(calls))).terms
  }

  function Run(q: Query, calls: seq<Call>): Query {
    if calls == [] then q else Apply(Run(q, calls[..|calls|-1]), calls[|calls|-1])
  }

  lemma {:induction false} ApplyThenRun(a: seq<Call>, b: seq<Call>)
    ensures ApplyAll(a + b) == Run(ApplyAll(a), b)
    decreases |b|
  {
    if b == [] {
      assert a + b == a;
    } else {
      var n := |b| - 1;
      ApplyThenRun(a, b[..n]);
      assert (a + b)[..|a + b| - 1] == a + b[..n];
    }
  }

  ghost function Behind(terms: seq<seq<seq<bytes>>>, groups: seq<seq<bytes>>, q: Query): Query {
    Query(terms + q.terms, groups + q.groups, q.group)
  }

  /** Closed terms are never looked at again. */
  lemma {:induction false} RunBehindTerms(terms: seq<seq<seq<bytes>>>, calls: seq<Call>)
    ensures Run(Query(terms, [], []), calls) == Behind(terms, [], ApplyAll(calls))
    decreases |calls|
  {
    if calls != [] {
      var n := |calls| - 1;
      RunBehindTerms(terms, calls[..n]);
      ClosedBehindTerms(terms, ApplyAll(calls[..n]));
    }
  }

  lemma NoneBehind(terms: seq<seq<seq<bytes>>>, q: Query)
    ensures Behind(terms, [], q) == Query(terms + q.terms, q.groups, q.group)
  {
    assert [] + q.groups == q.groups;
  }

  lemma ClosedBehindTerms(terms: seq<seq<seq<bytes>>>, q: Query)
    ensures CloseGroup(Behind(terms, [], q)) == Behind(terms, [], CloseGroup(q))
    ensures CloseTerm(CloseGroup(Behind(terms, [], q))) == Behind(terms, [], CloseTerm(CloseGroup(q)))
  {
    var c := CloseGroup(q);
    NoneBehind(terms, q);
    NoneBehind(terms, c);
    NoneBehind(terms, CloseTerm(c));
    assert terms + q.terms + [c.groups] == terms + (q.terms + [c.groups]);
  }

  /** Without a conjunction, closed groups are never looked at again. */
  lemma {:induction false} RunBehindGroups(groups: seq<seq<bytes>>, calls: seq<Call>)
    requires AddConjunction !in calls
    ensures Run(Query([], groups, []), calls) == Behind([], groups, ApplyAll(calls))
    ensures ApplyAll(calls).terms == []
    decreases |calls|
  {
    if calls != [] {
      var n := |calls| - 1;
      assert calls == calls[..n] + [calls[n]] && calls[n] in calls;
      RunBehindGroups(groups, calls[..n]);
      GroupsAssoc(groups, ApplyAll(calls[..n]));
    }
  }

  lemma GroupsAssoc(groups: seq<seq<bytes>>, q: Query)
    ensures CloseGroup(Behind([], groups, q)) == Behind([], groups, CloseGroup(q))
  {
    assert groups + q.groups + [q.group] == groups + (q.groups + [q.group]);
  }

  /** The groups of a term. */
  ghost function Groups(calls: seq<Call>): seq<seq<bytes>> {
    CloseGroup(ApplyAll(calls)).groups
  }

  lemma TermOfGroups(calls: seq<Call>)
    requires AddConjunction !in calls
    ensures Terms(calls) == if Groups(calls) == [] then [] else [Groups(calls)]
  {
    RunBehindGroups([], calls);
  }

  /** A conjunction separates terms. */
  lemma ConjunctionSplits(a: seq<Call>, b: seq<Call>)
    ensures Terms(a + [AddConjunction] + b) == Terms(a) + Terms(b)
  {
    var left := a + [AddConjunction];
    assert left[..|left|-1] == a;
    assert ApplyAll(left) == Query(Terms(a), [], []);
    ApplyThenRun(left, b);
    RunBehindTerms(Terms(a), b);
    ClosedBehindTerms(Terms(a), ApplyAll(b));
  }

  /** A disjunction separates the groups of a term. */
  lemma DisjunctionSplits(a: seq<Call>, b: seq<Call>)
    requires AddConjunction !in a && AddConjunction !in b
    ensures Groups(a + [AddDisjunction] + b) == Groups(a) + Groups(b)
  {
    var left := a + [AddDisjunction];
    assert left[..|left|-1] == a;
    RunBehindGroups([], a);
    assert ApplyAll(left) == Query([], Groups(a), []);
    ApplyThenRun(left, b);
    RunBehindGroups(Groups(a), b);
    GroupsAssoc(Groups(a), ApplyAll(b));
  }

  /** Matches alone make up one group; those without a field name are ignored. */
  lemma {:induction false} MatchesGather(calls: seq<Call>)
    requires AddConjunction !in calls && AddDisjunction !in calls
    ensures ApplyAll(calls) == Query([], [], Asked(calls))
    decreases |calls|
  {
    if calls != [] {
      var n := |calls| - 1;
      assert calls == calls[..n] + [calls[n]] && calls[n] in calls;
      MatchesGather(calls[..n]);
    }
  }

  // ----- that the two agree

  lemma {:induction false} AskedSplits(a: seq<Call>, b: seq<Call>)
    ensures Asked(a + b) == Asked(a) + Asked(b)
    decreases |b|
  {
    if b == [] {
      assert a + b == a;
    } else {
      var n := |b| - 1;
      AskedSplits(a, b[..n]);
      assert (a + b)[..|a + b| - 1] == a + b[..n];
      Assoc(Asked(a), Asked(b[..n]), Usable(b[n]));
    }
  }

  lemma Assoc(a: seq<bytes>, b: seq<bytes>, c: seq<bytes>)
    ensures (a + b) + c == a + (b + c)
  {
  }

  lemma {:induction false} AskedIfAsks(calls: seq<Call>)
    ensures Asks(calls) <==> Asked(calls) != []
    decreases |calls|
  {
    if calls != [] {
      var n := |calls| - 1;
      AskedIfAsks(calls[..n]);
      assert forall i :: 0 <= i < n ==> calls[i] == calls[..n][i];
      assert Asks(calls) <==> Asks(calls[..n]) || Usable(calls[n]) != [];
    }
  }

  lemma AskedAround(a: seq<Call>, c: Call, b: seq<Call>)
    requires !c.AddMatch?
    ensures Asked(a + [c] + b) == Asked(a) + Asked(b)
  {
    AskedSplits(a + [c], b);
    assert (a + [c])[..|a|] == a;
  }

  lemma {:induction false} GroupsAsked(j: Journal, calls: seq<Call>, e: uint64)
    requires AddConjunction !in calls
    ensures Groups(calls) == [] <==> Asked(calls) == []
    ensures AnyMeans(j, Groups(calls), e) <==> SomeGroupAsked(j, calls, e)
    decreases |calls|
  {
    if AddDisjunction in calls {
      var a, b := UpTo(calls, AddDisjunction), Past(calls, AddDisjunction);
      GroupsAsked(j, a, e);
      GroupsAsked(j, b, e);
      DisjunctionSplits(a, b);
      AskedAround(a, AddDisjunction, b);
      AnyOfBoth(j, Groups(a), Groups(b), e);
    } else {
      MatchesGather(calls);
      OneGroup(j, Asked(calls), e);
    }
  }

  lemma AnyOfBoth(j: Journal, a: seq<seq<bytes>>, b: seq<seq<bytes>>, e: uint64)
    ensures AnyMeans(j, a + b, e) <==> AnyMeans(j, a, e) || AnyMeans(j, b, e)
  {
    assert forall g :: g in a + b <==> g in a || g in b;
  }

  lemma OneGroup(j: Journal, group: seq<bytes>, e: uint64)
    ensures !AnyMeans(j, [], e) && (AnyMeans(j, [group], e) <==> GroupMeans(j, group, e))
  {
    assert group in [group];
  }

  lemma AllOfBoth(j: Journal, a: seq<seq<seq<bytes>>>, b: seq<seq<seq<bytes>>>, e: uint64)
    ensures AllMean(j, a + b, e) <==> AllMean(j, a, e) && AllMean(j, b, e)
  {
    assert forall t :: t in a + b <==> t in a || t in b;
  }

  lemma OneTerm(j: Journal, term: seq<seq<bytes>>, e: uint64)
    ensures AllMean(j, [], e) && (AllMean(j, [term], e) <==> AnyMeans(j, term, e))
  {
    assert term in [term];
  }

  lemma TermAsked(j: Journal, calls: seq<Call>, e: uint64)
    requires AddConjunction !in calls
    ensures Terms(calls) != [] <==> Asks(calls)
    ensures AllMean(j, Terms(calls), e) <==> (Asks(calls) ==> SomeGroupAsked(j, calls, e))
  {
    GroupsAsked(j, calls, e);
    TermOfGroups(calls);
    AskedIfAsks(calls);
    OneTerm(j, Groups(calls), e);
  }

  /** The terms that a list of calls leaves behind ask for what the list means. */
  lemma {:induction false} CallsMean(j: Journal, calls: seq<Call>, e: uint64)
    ensures AllMean(j, Terms(calls), e) <==> RowAsked(j, calls, e)
    ensures Terms(calls) != [] <==> Asks(calls)
    decreases |calls|
  {
    if AddConjunction in calls {
      var a, b := UpTo(calls, AddConjunction), Past(calls, AddConjunction);
      CallsMean(j, a, e);
      CallsMean(j, b, e);
      ConjunctionSplits(a, b);
      AllOfBoth(j, Terms(a), Terms(b), e);
      AskedAround(a, AddConjunction, b);
      AskedIfAsks(a);
      AskedIfAsks(b);
      AskedIfAsks(calls);
    } else {
      TermAsked(j, calls, e);
    }
  }

  // ----- the three laws, on rows

  /** Matches alone mean their one group. */
  lemma MatchesMean(j: Journal, payloads: seq<bytes>, calls: seq<Call>, e: uint64)
    requires payloads != [] && |calls| == |payloads|
    requires forall i :: 0 <= i < |calls| ==> calls[i] == AddMatch(payloads[i]) && EQUALS in payloads[i]
    ensures RowAsked(j, calls, e) <==> GroupMeans(j, payloads, e)
  {
    assert calls[0].AddMatch?;
    AskedInOrder(payloads, calls);
  }

  lemma {:induction false} AskedInOrder(payloads: seq<bytes>, calls: seq<Call>)
    requires |calls| == |payloads|
    requires forall i :: 0 <= i < |calls| ==> calls[i] == AddMatch(payloads[i]) && EQUALS in payloads[i]
    ensures Asked(calls) == payloads
    decreases |calls|
  {
    if calls != [] {
      var n := |calls| - 1;
      AskedInOrder(payloads[..n], calls[..n]);
      assert payloads == payloads[..n] + [payloads[n]];
    }
  }

  /** A disjunction between two lists that each ask something means either. */
  lemma DisjunctionMeans(j: Journal, a: seq<Call>, b: seq<Call>, e: uint64)
    requires AddConjunction !in a && AddConjunction !in b && Asks(a) && Asks(b)
    ensures RowAsked(j, a + [AddDisjunction] + b, e) <==> RowAsked(j, a, e) || RowAsked(j, b, e)
  {
    var calls := a + [AddDisjunction] + b;
    DisjunctionSplits(a, b);
    AnyOfBoth(j, Groups(a), Groups(b), e);
    GroupsAsked(j, a, e);
    GroupsAsked(j, b, e);
    GroupsAsked(j, calls, e);
    AskedAround(a, AddDisjunction, b);
    AskedIfAsks(a);
    AskedIfAsks(b);
    AskedIfAsks(calls);
  }

  /** A conjunction between two lists means both. */
  lemma ConjunctionMeans(j: Journal, a: seq<Call>, b: seq<Call>, e: uint64)
    ensures RowAsked(j, a + [AddConjunction] + b, e) <==> RowAsked(j, a, e) && RowAsked(j, b, e)
  {
    CallsMean(j, a, e);
    CallsMean(j, b, e);
    CallsMean(j, a + [AddConjunction] + b, e);
    ConjunctionSplits(a, b);
    AllOfBoth(j, Terms(a), Terms(b), e);
  }
}
