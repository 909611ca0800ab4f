/** Stepping through several files: the k-way merge against one file after the other
    (go/journal/directory_reader.go:132-147, 810-990, 1046-1083). */
module DirectoryMerge {
  import opened JournalGraph
  import opened FilterStep

  /** The order key of an entry. All files share one sequence-number space. */
  datatype Key = Key(seqnum: uint64, realtime: uint64)

  datatype FileHeader = FileHeader(seqnumId: nat, headSeqnum: uint64, tailSeqnum: uint64, headRealtime: uint64, tailRealtime: uint64)

  /** `a` comes before `b` when walking along `dir`. */
  predicate Precedes(dir: Direction, a: Key, b: Key) {
    if dir.Forward? then a.seqnum < b.seqnum else a.seqnum > b.seqnum
  }

  ghost predicate Sorted(dir: Direction, s: seq<Key>) {
    forall i, k :: 0 <= i < k < |s| ==> Precedes(dir, s[i], s[k])
  }

  /** The rows of a file in the order in which `dir` reads them. */
  ghost function View(dir: Direction, rows: seq<Key>): (v: seq<Key>)
    ensures |v| == |rows|
  {
    if dir.Forward? then rows else seq(|rows|, i requires 0 <= i < |rows| => rows[|rows| - 1 - i])
  }

  /** The row that `dir` reads after `n` others. */
  function RowAt(dir: Direction, rows: seq<Key>, n: nat): Key
    requires n < |rows|
  {
    if dir.Forward? then rows[n] else rows[|rows| - 1 - n]
  }

  lemma SortedView(dir: Direction, rows: seq<Key>)
    requires Sorted(Forward, rows)
    ensures Sorted(dir, View(dir, rows))
  {
  }

  // ----- two sorted sequences with the same elements are the same

  lemma {:induction false} SortedUnique(dir: Direction, s: seq<Key>, t: seq<Key>)
    requires Sorted(dir, s) && Sorted(dir, t) && (forall k :: k in s <==> k in t)
    ensures s == t
    decreases |s|
  {
    if s == [] {
      if t != [] { HasKey(t); }
    } else {
      assert s[0] in s;
      assert s[0] in t && t[0] in t;
      assert t[0] in s;
      FirstsEqual(dir, s, t);
      TailMembers(dir, s);
      TailMembers(dir, t);
      SortedUnique(dir, s[1..], t[1..]);
      assert s == [s[0]] + s[1..] && t == [t[0]] + t[1..];
    }
  }

  lemma HasKey(s: seq<Key>)
    requires s != []
    ensures exists k :: k in s
  {
    assert s[0] in s;
  }

  lemma FirstsEqual(dir: Direction, s: seq<Key>, t: seq<Key>)
    requires Sorted(dir, s) && Sorted(dir, t) && s != [] && t != [] && s[0] in t && t[0] in s
    ensures s[0] == t[0]
  {
    var i :| 0 <= i < |t| && t[i] == s[0];
    var k :| 0 <= k < |s| && s[k] == t[0];
  }

  lemma TailMembers(dir: Direction, s: seq<Key>)
    requires Sorted(dir, s) && s != []
    ensures Sorted(dir, s[1..]) && forall k :: k in s[1..] <==> k in s && k != s[0]
  {
    forall k ensures k in s[1..] <==> k in s && k != s[0] {
      if k in s && k != s[0] {
        var i :| 0 <= i < |s| && s[i] == k;
        assert k == s[1..][i-1];
      }
    }
  }

  // ----- merging

  type Files = seq<seq<Key>>

  /** Every file is in sequence-number order, and no number occurs in two files. */
  ghost predicate Mergeable(files: Files) {
    && (forall i :: 0 <= i < |files| ==> Sorted(Forward, files[i]))
    && (forall i, k, a, b :: 0 <= i < |files| && 0 <= k < |files| && i != k && a in files[i] && b in files[k] ==> a.seqnum != b.seqnum)
  }

  ghost predicate InFiles(files: Files, k: Key) {
    exists i :: 0 <= i < |files| && k in files[i]
  }

  /** The first `y[i]` rows of every file were yielded, in order. */
  ghost predicate Merged(files: Files, dir: Direction, y: seq<nat>, out: seq<Key>) {
    && |y| == |files| && (forall i :: 0 <= i < |files| ==> y[i] <= |files[i]|)
    && Sorted(dir, out)
    && (forall k :: k in out ==> InFiles(files, k))
    && (forall i, n :: 0 <= i < |files| && 0 <= n < y[i] ==> RowAt(dir, files[i], n) in out)
    && (forall i, n :: 0 <= i < |files| && y[i] <= n < |files[i]| ==> Follows(dir, out, RowAt(dir, files[i], n)))
  }

  ghost predicate Follows(dir: Direction, out: seq<Key>, k: Key) {
    out != [] ==> Precedes(dir, out[|out|-1], k)
  }

  lemma RowsSorted(dir: Direction, rows: seq<Key>, n: nat, m: nat)
    requires Sorted(Forward, rows) && n < m < |rows|
    ensures Precedes(dir, RowAt(dir, rows, n), RowAt(dir, rows, m))
  {
  }

  lemma RowInFile(dir: Direction, files: Files, i: nat, n: nat)
    requires i < |files| && n < |files[i]|
    ensures RowAt(dir, files[i], n) in files[i] && InFiles(files, RowAt(dir, files[i], n))
  {
  }

  /** The next row of file `best` precedes the next row of every other file. */
  ghost predicate Best(files: Files, dir: Direction, y: seq<nat>, best: nat)
    requires |y| == |files|
  {
    && best < |files| && y[best] < |files[best]|
    && forall i :: 0 <= i < |files| && i != best && y[i] < |files[i]| ==>
         Precedes(dir, RowAt(dir, files[best], y[best]), RowAt(dir, files[i], y[i]))
  }

  lemma BestPrecedes(files: Files, dir: Direction, y: seq<nat>, best: nat, i: nat, n: nat)
    requires Mergeable(files) && |y| == |files| && Best(files, dir, y, best)
    requires i < |files| && y[i] <= n < |files[i]| && (i != best || n > y[best])
    ensures Precedes(dir, RowAt(dir, files[best], y[best]), RowAt(dir, files[i], n))
  {
    if n > y[i] { RowsSorted(dir, files[i], y[i], n); }
  }

  /** Yielding the best row keeps the merge in order. */
  lemma MergeStep(files: Files, dir: Direction, y: seq<nat>, out: seq<Key>, best: nat)
    requires Mergeable(files) && Merged(files, dir, y, out) && Best(files, dir, y, best)
    ensures Merged(files, dir, y[best := y[best] + 1], out + [RowAt(dir, files[best], y[best])])
  {
    var b := RowAt(dir, files[best], y[best]);
    var y', out' := y[best := y[best] + 1], out + [b];
    RowInFile(dir, files, best, y[best]);
    assert Follows(dir, out, b);
    SortedAppend(dir, out, b);
    forall i, n | 0 <= i < |files| && 0 <= n < y'[i] ensures RowAt(dir, files[i], n) in out' {
      if n < y[i] { assert RowAt(dir, files[i], n) in out; }
    }
    forall i, n | 0 <= i < |files| && y'[i] <= n < |files[i]| ensures Follows(dir, out', RowAt(dir, files[i], n)) {
      BestPrecedes(files, dir, y, best, i, n);
    }
  }

  lemma SortedAppend(dir: Direction, s: seq<Key>, k: Key)
    requires Sorted(dir, s) && Follows(dir, s, k)
    ensures Sorted(dir, s + [k])
  {
    forall i, m | 0 <= i < m < |s + [k]| ensures Precedes(dir, (s + [k])[i], (s + [k])[m]) {
      if m == |s| && i < |s| - 1 { assert Precedes(dir, s[i], s[|s|-1]); }
    }
  }

  /** Once every file is used up, the rows are all of them, each once, in order. */
  lemma MergeEnds(files: Files, dir: Direction, y: seq<nat>, out: seq<Key>)
    requires Merged(files, dir, y, out) && forall i :: 0 <= i < |files| ==> y[i] == |files[i]|
    ensures Sorted(dir, out) && forall k :: k in out <==> InFiles(files, k)
  {
    forall k | InFiles(files, k) ensures k in out {
      var i :| 0 <= i < |files| && k in files[i];
      var x :| 0 <= x < |files[i]| && files[i][x] == k;
      var n := if dir.Forward? then x else |files[i]| - 1 - x;
      assert RowAt(dir, files[i], n) == k;
    }
  }

  class MergingReader {
    const files: Files
    const dir: Direction
    var consumed: seq<nat>
    var candidates: seq<Option<Key>>
    var current: Option<Key>
    ghost var y: seq<nat>
    ghost var out: seq<Key>

    constructor (files: Files, dir: Direction)
      ensures this.files == files && this.dir == dir && Valid() && out == []
    {
      this.files, this.dir := files, dir;
      consumed, y := seq(|files|, _ => 0), seq(|files|, _ => 0);
      candidates := seq(|files|, _ => None);
      current, out := None, [];
    }

    ghost predicate Shaped()
      reads this
    {
      && |consumed| == |candidates| == |files| == |y|
      && (forall i :: 0 <= i < |files| ==> consumed[i] <= |files[i]|)
      && (if out == [] then current.None? else current == Some(out[|out|-1]))
    }

    /** A file has given its yielded rows and, if pending, its candidate. */
    ghost predicate Tracked(i: nat)
      reads this
      requires Shaped() && i < |files|
    {
      if candidates[i].Some? then consumed[i] == y[i] + 1 && candidates[i].value == RowAt(dir, files[i], y[i])
      else consumed[i] == y[i]
    }

    ghost predicate InStep()
      reads this
      requires Shaped()
    {
      Merged(files, dir, y, out) && forall i :: 0 <= i < |files| ==> Tracked(i)
    }

    ghost predicate Valid()
      reads this
    {
      Shaped() && (Mergeable(files) ==> InStep())
    }

    predicate PassesCurrent(k: Key)
      reads this`current
    {
      current.None? || Precedes(dir, current.value, k)
    }

    /** Reads a file up to its next row after the current one. */
    method ReadNext(i: nat) returns (n: nat, c: Option<Key>)
      requires Valid() && i < |files| && candidates[i].None?
      ensures n <= |files[i]|
      ensures Mergeable(files) ==>
                if y[i] < |files[i]| then n == y[i] + 1 && c == Some(RowAt(dir, files[i], y[i])) else n == y[i] && c.None?
    {
      assert Mergeable(files) ==> Tracked(i);
      n, c := consumed[i], None;
      while n < |files[i]|
        invariant n <= |files[i]| && (Mergeable(files) ==> n == y[i])
        decreases |files[i]| - n
      {
        var key := RowAt(dir, files[i], n);
        assert Mergeable(files) ==> Follows(dir, out, key);
        n := n + 1;
        if PassesCurrent(key) { return n, Some(key); }
      }
    }

    method FillCandidate(i: nat)
      requires Valid() && i < |files|
      modifies this`consumed, this`candidates
      ensures Valid() && (Mergeable(files) ==> (candidates[i].Some? <==> y[i] < |files[i]|))
      ensures forall k :: 0 <= k < |files| && k != i ==> candidates[k] == old(candidates)[k]
    {
      label start:
      if candidates[i].Some? {
        assert Mergeable(files) ==> Tracked(i);
        return;
      }
      var n, c := ReadNext(i);
      consumed, candidates := consumed[i := n], candidates[i := c];
      if Mergeable(files) {
        forall k | 0 <= k < |files| ensures Tracked(k) {
          assert old@start(Tracked(k));
        }
      }
    }

    method FillAll()
      requires Valid()
      modifies this`consumed, this`candidates
      ensures Valid() && (Mergeable(files) ==> Filled())
    {
      for i := 0 to |files|
        invariant Valid()
        invariant Mergeable(files) ==> forall k :: 0 <= k < i ==> (candidates[k].Some? <==> y[k] < |files[k]|)
      {
        FillCandidate(i);
      }
    }

    /** The candidate that comes first, and of equals the one of the first file. */
    method FindBest() returns (found: bool, best: nat)
      requires |candidates| == |files|
      ensures found <==> exists i :: 0 <= i < |files| && candidates[i].Some?
      ensures found ==> best < |files| && candidates[best].Some?
      ensures found ==> forall i :: 0 <= i < |files| && candidates[i].Some? ==> !Precedes(dir, candidates[i].value, candidates[best].value)
    {
      found, best := false, 0;
      for i := 0 to |files|
        invariant found <==> exists k :: 0 <= k < i && candidates[k].Some?
        invariant found ==> best < i && candidates[best].Some?
        invariant found ==> forall k :: 0 <= k < i && candidates[k].Some? ==> !Precedes(dir, candidates[k].value, candidates[best].value)
      {
        if candidates[i].Some? && (!found || Precedes(dir, candidates[i].value, candidates[best].value)) {
          found, best := true, i;
        }
      }
    }

    lemma BestIsBest(best: nat)
      requires Valid() && Mergeable(files) && best < |files| && candidates[best].Some?
      requires Filled()
      requires forall i :: 0 <= i < |files| && candidates[i].Some? ==> !Precedes(dir, candidates[i].value, candidates[best].value)
      ensures Best(files, dir, y, best) && candidates[best].value == RowAt(dir, files[best], y[best])
    {
      assert Tracked(best);
      forall i | 0 <= i < |files| && i != best && y[i] < |files[i]|
        ensures Precedes(dir, RowAt(dir, files[best], y[best]), RowAt(dir, files[i], y[i]))
      {
        assert Tracked(i);
        RowInFile(dir, files, best, y[best]);
        RowInFile(dir, files, i, y[i]);
      }
    }

    /** Fills the candidates and picks the first. */
    method Choose() returns (found: bool, best: nat)
      requires Valid()
      modifies this`consumed, this`candidates
      ensures Valid() && (found ==> best < |files| && candidates[best].Some?)
      ensures Mergeable(files) && found ==> y[best] < |files[best]| && Merged(files, dir, y[best := y[best] + 1], out + [candidates[best].value])
      ensures Mergeable(files) && !found ==> forall i :: 0 <= i < |files| ==> y[i] == |files[i]|
    {
      FillAll();
      found, best := FindBest();
      Chosen(found, best);
    }

    lemma Chosen(found: bool, best: nat)
      requires Valid() && (Mergeable(files) ==> Filled())
      requires found <==> exists i :: 0 <= i < |files| && candidates[i].Some?
      requires found ==> best < |files| && candidates[best].Some?
      requires found ==> forall i :: 0 <= i < |files| && candidates[i].Some? ==> !Precedes(dir, candidates[i].value, candidates[best].value)
      ensures Mergeable(files) && found ==> y[best] < |files[best]| && Merged(files, dir, y[best := y[best] + 1], out + [candidates[best].value])
      ensures Mergeable(files) && !found ==> forall i :: 0 <= i < |files| ==> y[i] == |files[i]|
    {
      if Mergeable(files) {
        if found { NextMerged(best); } else { NoneLeft(); }
      }
    }

    ghost predicate Filled()
      reads this
      requires |candidates| == |files| == |y|
    {
      forall i :: 0 <= i < |files| ==> (candidates[i].Some? <==> y[i] < |files[i]|)
    }

    lemma NextMerged(best: nat)
      requires Valid() && Mergeable(files) && best < |files| && candidates[best].Some? && Filled()
      requires forall i :: 0 <= i < |files| && candidates[i].Some? ==> !Precedes(dir, candidates[i].value, candidates[best].value)
      ensures y[best] < |files[best]| && Merged(files, dir, y[best := y[best] + 1], out + [candidates[best].value])
    {
      BestIsBest(best);
      MergeStep(files, dir, y, out, best);
    }

    lemma NoneLeft()
      requires Valid() && Mergeable(files) && Filled() && forall i :: 0 <= i < |files| ==> candidates[i].None?
      ensures forall i :: 0 <= i < |files| ==> y[i] == |files[i]|
    {
    }

    /** One step of the merge. */
    method Step() returns (r: Option<Key>)
      requires Valid()
      modifies this
      ensures Valid()
      ensures r.Some? ==> out == old(out) + [r.value] && Total(y) == old(Total(y)) + 1
      ensures r.None? ==> out == old(out)
      ensures r.None? && Mergeable(files) ==> Sorted(dir, out) && forall k :: k in out <==> InFiles(files, k)
    {
      var found, best := Choose();
      if !found {
        if Mergeable(files) { MergeEnds(files, dir, y, out); }
        return None;
      }
      r := candidates[best];
      Take(best);
    }

    /** Yields the candidate of one file. */
    method Take(best: nat)
      requires Shaped() && best < |files| && candidates[best].Some?
      requires Mergeable(files) ==>
                 && InStep() && y[best] < |files[best]|
                 && Merged(files, dir, y[best := y[best] + 1], out + [candidates[best].value])
      modifies this`candidates, this`current, this`y, this`out
      ensures Valid() && out == old(out) + [old(candidates)[best].value] && Total(y) == old(Total(y)) + 1
    {
      label start:
      ghost var k := candidates[best].value;
      current := candidates[best];
      candidates := candidates[best := None];
      TotalStep(y, best);
      y, out := y[best := y[best] + 1], out + [k];
      if Mergeable(files) {
        forall i | 0 <= i < |files| ensures Tracked(i) {
          assert old@start(Tracked(i));
        }
      }
    }
  }

  ghost function Total(y: seq<nat>): nat {
    if y == [] then 0 else Total(y[..|y|-1]) + y[|y|-1]
  }

  lemma {:induction false} TotalStep(y: seq<nat>, i: nat)
    requires i < |y|
    ensures Total(y[i := y[i] + 1]) == Total(y) + 1
    decreases |y|
  {
    var n := |y| - 1;
    if i < n {
      TotalStep(y[..n], i);
      assert y[i := y[i] + 1][..n] == y[..n][i := y[i] + 1];
    } else {
      assert y[i := y[i] + 1][..n] == y[..n];
    }
  }

  // ----- one file after the other

  predicate Apart(prev: FileHeader, next: FileHeader) {
    && prev.seqnumId == next.seqnumId
    && prev.tailSeqnum != 0 && next.headSeqnum != 0 && prev.tailSeqnum < next.headSeqnum
    && prev.tailRealtime != 0 && next.headRealtime != 0 && prev.tailRealtime < next.headRealtime
  }

  /** Consecutive files do not overlap. */
  ghost predicate NonOverlapping(headers: seq<FileHeader>) {
    |headers| > 0 && forall i, k :: 0 <= i < k < |headers| && k == i + 1 ==> Apart(headers[i], headers[k])
  }

  /** The headers' test for that. */
  method FilesNonOverlapping(headers: seq<FileHeader>) returns (ok: bool)
    ensures ok <==> NonOverlapping(headers)
  {
    var i := 1;
    while i < |headers|
      invariant forall x, k :: 0 <= x < k < i && k < |headers| && k == x + 1 ==> Apart(headers[x], headers[k])
    {
      if !Apart(headers[i-1], headers[i]) { return false; }
      i := i + 1;
    }
    return |headers| > 0;
  }

  /** A header bounds the sequence numbers of its file. */
  ghost predicate Bounds(h: FileHeader, rows: seq<Key>) {
    h.headSeqnum <= h.tailSeqnum && forall k :: k in rows ==> h.headSeqnum <= k.seqnum <= h.tailSeqnum
  }

  ghost predicate HeadersBound(headers: seq<FileHeader>, files: Files) {
    |headers| == |files| && forall i :: 0 <= i < |files| ==> Bounds(headers[i], files[i])
  }

  lemma {:induction false} TailsRise(headers: seq<FileHeader>, files: Files, i: nat, k: nat)
    requires NonOverlapping(headers) && HeadersBound(headers, files) && i < k < |headers|
    ensures headers[i].tailSeqnum < headers[k].headSeqnum
    decreases k
  {
    var p := k - 1;
    assert Apart(headers[p], headers[k]);
    if i < p {
      TailsRise(headers, files, i, p);
      assert Bounds(headers[p], files[p]);
    }
  }

  /** A header also bounds the times of its file. */
  ghost predicate TimesBound(h: FileHeader, rows: seq<Key>) {
    h.headRealtime <= h.tailRealtime && forall k :: k in rows ==> h.headRealtime <= k.realtime <= h.tailRealtime
  }

  lemma {:induction false} TimesRise(headers: seq<FileHeader>, files: Files, i: nat, k: nat)
    requires NonOverlapping(headers) && |headers| == |files| && i < k < |headers|
    requires forall x :: 0 <= x < |files| ==> TimesBound(headers[x], files[x])
    ensures headers[i].tailRealtime < headers[k].headRealtime && headers[i].seqnumId == headers[k].seqnumId
    decreases k
  {
    var p := k - 1;
    assert Apart(headers[p], headers[k]);
    if i < p {
      TimesRise(headers, files, i, p);
      assert TimesBound(headers[p], files[p]);
    }
  }

  /** Of files whose headers are apart and tell the truth, every row of an earlier one comes before
      every row of a later one, in time as well as in number, and they count in one number space. */
  lemma RowsApart(headers: seq<FileHeader>, files: Files, i: nat, k: nat, a: Key, b: Key)
    requires NonOverlapping(headers) && HeadersBound(headers, files) && i < k < |files| && a in files[i] && b in files[k]
    requires forall x :: 0 <= x < |files| ==> TimesBound(headers[x], files[x])
    ensures a.seqnum < b.seqnum && a.realtime < b.realtime && headers[i].seqnumId == headers[k].seqnumId
  {
    TailsRise(headers, files, i, k);
    TimesRise(headers, files, i, k);
    assert Bounds(headers[i], files[i]) && Bounds(headers[k], files[k]);
    assert TimesBound(headers[i], files[i]) && TimesBound(headers[k], files[k]);
  }

  lemma DisjointFiles(headers: seq<FileHeader>, files: Files)
    requires NonOverlapping(headers) && HeadersBound(headers, files) && forall i :: 0 <= i < |files| ==> Sorted(Forward, files[i])
    ensures Mergeable(files)
  {
    forall i, k, a, b | 0 <= i < |files| && 0 <= k < |files| && i != k && a in files[i] && b in files[k] ensures a.seqnum != b.seqnum {
      assert Bounds(headers[i], files[i]) && Bounds(headers[k], files[k]);
      if i < k { TailsRise(headers, files, i, k); } else { TailsRise(headers, files, k, i); }
    }
  }

  /** The file that is read `n`-th along `dir`. */
  function FileAt(dir: Direction, count: nat, n: nat): nat
    requires n < count
  {
    if dir.Forward? then n else count - 1 - n
  }

  class SequentialReader {
    const files: Files
    const dir: Direction
    var index: nat
    var consumed: nat

    constructor (files: Files, dir: Direction)
      ensures this.files == files && this.dir == dir && index == 0 && consumed == 0
    {
      this.files, this.dir, index, consumed := files, dir, 0, 0;
    }

    ghost predicate Valid()
      reads this
    {
      InRange(files, dir, index, consumed)
    }

    /** The rows still to be read. */
    ghost function Rest(): seq<Key>
      reads this
      requires Valid()
    {
      RestOf(files, dir, index, consumed)
    }

    /** The next row of the current file. */
    method TakeRow() returns (k: Key)
      requires Valid() && index < |files| && consumed < |files[FileAt(dir, |files|, index)]|
      modifies this`consumed
      ensures Valid() && old(Rest()) == [k] + Rest()
    {
      RestFirst(files, dir, index, consumed);
      k := RowAt(dir, files[FileAt(dir, |files|, index)], consumed);
      consumed := consumed + 1;
    }

    /** One sequential step: the next row of the current file, or of the next file that has one. */
    method Step() returns (r: Option<Key>)
      requires Valid()
      modifies this
      ensures Valid()
      ensures r.None? ==> old(Rest()) == [] && Rest() == []
      ensures r.Some? ==> old(Rest()) == [r.value] + Rest()
    {
      ghost var rest := Rest();
      while index < |files|
        invariant Valid() && Rest() == rest
        decreases |files| - index
      {
        var rows := files[FileAt(dir, |files|, index)];
        if consumed < |rows| {
          var k := TakeRow();
          return Some(k);
        }
        RestNext(files, dir, index, consumed);
        index, consumed := index + 1, 0;
      }
      return None;
    }
  }

  ghost predicate InRange(files: Files, dir: Direction, index: nat, consumed: nat) {
    index <= |files| && if index < |files| then consumed <= |files[FileAt(dir, |files|, index)]| else consumed == 0
  }

  ghost function RestOf(files: Files, dir: Direction, index: nat, consumed: nat): seq<Key>
    requires InRange(files, dir, index, consumed)
  {
    if index == |files| then [] else View(dir, files[FileAt(dir, |files|, index)])[consumed..] + After(files, dir, index + 1)
  }

  lemma RestFirst(files: Files, dir: Direction, index: nat, consumed: nat)
    requires InRange(files, dir, index, consumed) && index < |files| && consumed < |files[FileAt(dir, |files|, index)]|
    ensures RestOf(files, dir, index, consumed) ==
              [RowAt(dir, files[FileAt(dir, |files|, index)], consumed)] + RestOf(files, dir, index, consumed + 1)
  {
    SplitFirst(View(dir, files[FileAt(dir, |files|, index)]), consumed, After(files, dir, index + 1));
  }

  lemma SplitFirst(v: seq<Key>, n: nat, rest: seq<Key>)
    requires n < |v|
    ensures v[n..] + rest == [v[n]] + (v[n + 1..] + rest)
  {
    assert v[n..] == [v[n]] + v[n + 1..];
  }

  lemma RestNext(files: Files, dir: Direction, index: nat, consumed: nat)
    requires InRange(files, dir, index, consumed) && index < |files| && consumed == |files[FileAt(dir, |files|, index)]|
    ensures InRange(files, dir, index + 1, 0) && RestOf(files, dir, index, consumed) == RestOf(files, dir, index + 1, 0)
  {
    var v := View(dir, files[FileAt(dir, |files|, index)]);
    assert v[consumed..] == [];
    if index + 1 < |files| {
      var w := View(dir, files[FileAt(dir, |files|, index + 1)]);
      assert w[0..] == w;
    }
  }

  /** The rows of the files from the `n`-th on, one file after the other. */
  ghost function After(files: Files, dir: Direction, n: nat): seq<Key>
    requires n <= |files|
    decreases |files| - n
  {
    if n == |files| then [] else View(dir, files[FileAt(dir, |files|, n)]) + After(files, dir, n + 1)
  }

  // ----- both ways

  /** Rows of a file come before the rows of every file read later. */
  lemma FilesOrdered(headers: seq<FileHeader>, files: Files, dir: Direction, n: nat, m: nat, a: Key, b: Key)
    requires NonOverlapping(headers) && HeadersBound(headers, files) && n < m < |files|
    requires a in files[FileAt(dir, |files|, n)] && b in files[FileAt(dir, |files|, m)]
    ensures Precedes(dir, a, b)
  {
    var i, k := FileAt(dir, |files|, n), FileAt(dir, |files|, m);
    assert Bounds(headers[i], files[i]) && Bounds(headers[k], files[k]);
    if i < k { TailsRise(headers, files, i, k); } else { TailsRise(headers, files, k, i); }
  }

  lemma ViewMembers(dir: Direction, rows: seq<Key>)
    ensures forall k :: k in View(dir, rows) <==> k in rows
  {
    if dir.Backward? { BackwardMembers(rows, View(dir, rows)); }
  }

  lemma BackwardMembers(rows: seq<Key>, v: seq<Key>)
    requires |v| == |rows| && forall i :: 0 <= i < |rows| ==> v[i] == rows[|rows| - 1 - i]
    ensures forall k :: k in v <==> k in rows
  {
    forall k | k in rows ensures k in v {
      var i :| 0 <= i < |rows| && rows[i] == k;
      assert v[|rows| - 1 - i] == k;
    }
  }

  /** Some file from the `n`-th on has the row. */
  ghost predicate InLater(files: Files, dir: Direction, n: nat, k: Key)
    requires n <= |files|
  {
    exists x :: n <= x < |files| && k in files[FileAt(dir, |files|, x)]
  }

  lemma InLaterStep(files: Files, dir: Direction, n: nat, k: Key)
    requires n < |files|
    ensures InLater(files, dir, n, k) <==> k in files[FileAt(dir, |files|, n)] || InLater(files, dir, n + 1, k)
  {
  }

  lemma {:induction false} AfterMembers(files: Files, dir: Direction, n: nat, k: Key)
    requires n <= |files|
    ensures k in After(files, dir, n) <==> InLater(files, dir, n, k)
    decreases |files| - n
  {
    if n < |files| {
      AfterMembers(files, dir, n + 1, k);
      ViewMembers(dir, files[FileAt(dir, |files|, n)]);
      InLaterStep(files, dir, n, k);
    }
  }

  lemma PrecedesLater(headers: seq<FileHeader>, files: Files, dir: Direction, n: nat, a: Key, b: Key)
    requires NonOverlapping(headers) && HeadersBound(headers, files) && n < |files|
    requires a in files[FileAt(dir, |files|, n)] && InLater(files, dir, n + 1, b)
    ensures Precedes(dir, a, b)
  {
    var x :| n + 1 <= x < |files| && b in files[FileAt(dir, |files|, x)];
    FilesOrdered(headers, files, dir, n, x, a, b);
  }

  lemma AllPrecede(headers: seq<FileHeader>, files: Files, dir: Direction, n: nat, s: seq<Key>, t: seq<Key>)
    requires NonOverlapping(headers) && HeadersBound(headers, files) && n < |files|
    requires forall a :: a in s ==> a in files[FileAt(dir, |files|, n)]
    requires forall b :: b in t ==> InLater(files, dir, n + 1, b)
    ensures forall a, b :: a in s && b in t ==> Precedes(dir, a, b)
  {
    forall a, b | a in s && b in t ensures Precedes(dir, a, b) {
      PrecedesLater(headers, files, dir, n, a, b);
    }
  }

  lemma FileThenLater(headers: seq<FileHeader>, files: Files, dir: Direction, n: nat, later: seq<Key>, all: seq<Key>)
    requires NonOverlapping(headers) && HeadersBound(headers, files) && n < |files|
    requires Sorted(Forward, files[FileAt(dir, |files|, n)]) && Sorted(dir, later)
    requires forall b :: b in later ==> InLater(files, dir, n + 1, b)
    requires all == View(dir, files[FileAt(dir, |files|, n)]) + later
    ensures Sorted(dir, all)
  {
    var rows := files[FileAt(dir, |files|, n)];
    SortedView(dir, rows);
    ViewMembers(dir, rows);
    AllPrecede(headers, files, dir, n, View(dir, rows), later);
    SortedConcat(dir, View(dir, rows), later);
  }

  lemma AllLater(files: Files, dir: Direction, n: nat, later: seq<Key>)
    requires n <= |files| && later == After(files, dir, n)
    ensures forall b :: b in later ==> InLater(files, dir, n, b)
  {
    forall b | b in later ensures InLater(files, dir, n, b) { AfterMembers(files, dir, n, b); }
  }

  ghost predicate SortedFile(files: Files, i: nat)
    requires i < |files|
  {
    Sorted(Forward, files[i])
  }

  lemma {:induction false} AfterSorted(headers: seq<FileHeader>, files: Files, dir: Direction, n: nat)
    requires NonOverlapping(headers) && HeadersBound(headers, files) && n <= |files|
    requires forall i :: 0 <= i < |files| ==> SortedFile(files, i)
    ensures Sorted(dir, After(files, dir, n))
    decreases |files| - n
  {
    if n < |files| {
      AfterSorted(headers, files, dir, n + 1);
      SortedStep(headers, files, dir, n);
    }
  }

  lemma SortedStep(headers: seq<FileHeader>, files: Files, dir: Direction, n: nat)
    requires NonOverlapping(headers) && HeadersBound(headers, files) && n < |files|
    requires SortedFile(files, FileAt(dir, |files|, n)) && Sorted(dir, After(files, dir, n + 1))
    ensures Sorted(dir, After(files, dir, n))
  {
    var later := After(files, dir, n + 1);
    AllLater(files, dir, n + 1, later);
    FileThenLater(headers, files, dir, n, later, After(files, dir, n));
  }

  lemma SortedConcat(dir: Direction, s: seq<Key>, t: seq<Key>)
    requires Sorted(dir, s) && Sorted(dir, t) && forall a, b :: a in s && b in t ==> Precedes(dir, a, b)
    ensures Sorted(dir, s + t)
  {
  }

  lemma AllRows(files: Files, dir: Direction)
    ensures forall k :: k in After(files, dir, 0) <==> InFiles(files, k)
  {
    forall k ensures k in After(files, dir, 0) <==> InFiles(files, k) {
      AfterMembers(files, dir, 0, k);
      if InFiles(files, k) {
        var i :| 0 <= i < |files| && k in files[i];
        assert FileAt(dir, |files|, FileAt(dir, |files|, i)) == i;
      }
    }
  }

  /** Steps the merge until it has no more rows. */
  method MergeAll(files: Files, dir: Direction) returns (out: seq<Key>)
    requires Mergeable(files)
    ensures Sorted(dir, out) && forall k :: k in out <==> InFiles(files, k)
  {
    var m := new MergingReader(files, dir);
    out := [];
    while true
      invariant fresh(m) && m.Valid() && m.files == files && m.dir == dir && out == m.out
      decreases Total(Sizes(files)) - Total(m.y)
    {
      ghost var y := m.y;
      var r := m.Step();
      if r.None? { return; }
      TotalBound(m.y, files);
      out := out + [r.value];
    }
  }

  ghost function Sizes(files: Files): (s: seq<nat>)
    ensures |s| == |files|
  {
    seq(|files|, i requires 0 <= i < |files| => |files[i]|)
  }

  lemma TotalBound(y: seq<nat>, files: Files)
    requires |y| == |files| && forall i :: 0 <= i < |files| ==> y[i] <= |files[i]|
    ensures Total(y) <= Total(Sizes(files))
  {
    TotalLeq(y, Sizes(files));
  }

  lemma {:induction false} TotalLeq(a: seq<nat>, b: seq<nat>)
    requires |a| == |b| && forall i :: 0 <= i < |a| ==> a[i] <= b[i]
    ensures Total(a) <= Total(b)
    decreases |a|
  {
    if a != [] { TotalLeq(a[..|a|-1], b[..|b|-1]); }
  }

  /** Steps one file after the other until there are no more rows. */
  method ReadAll(files: Files, dir: Direction) returns (out: seq<Key>)
    ensures out == After(files, dir, 0)
  {
    var s := new SequentialReader(files, dir);
    out := [];
    ghost var all := s.Rest();
    while true
      invariant fresh(s) && s.Valid() && s.files == files && s.dir == dir && out + s.Rest() == all
      decreases |s.Rest()|
    {
      ghost var rest := s.Rest();
      var r := s.Step();
      if r.None? { return; }
      MovedOver(out, rest, r.value, s.Rest());
      out := out + [r.value];
    }
  }

  lemma MovedOver(out: seq<Key>, rest: seq<Key>, k: Key, left: seq<Key>)
    requires rest == [k] + left
    ensures out + rest == out + [k] + left && |left| < |rest|
  {
  }

  /** When the headers say that files do not overlap, and bound their rows, both ways of stepping
      yield the same rows: all of them, each once, in sequence-number order. */
  method CompareStepping(headers: seq<FileHeader>, files: Files, dir: Direction) returns (merged: seq<Key>, sequential: seq<Key>)
    requires NonOverlapping(headers) && HeadersBound(headers, files)
    requires forall i :: 0 <= i < |files| ==> Sorted(Forward, files[i])
    ensures merged == sequential && forall k :: k in merged <==> InFiles(files, k)
    ensures forall x, y :: 0 <= x < y < |merged| ==>
              if dir.Forward? then merged[x].seqnum < merged[y].seqnum else merged[x].seqnum > merged[y].seqnum
  {
    DisjointFiles(headers, files);
    merged := MergeAll(files, dir);
    sequential := ReadAll(files, dir);
    assert forall i :: 0 <= i < |files| ==> SortedFile(files, i);
    AfterSorted(headers, files, dir, 0);
    AllRows(files, dir);
    SortedUnique(dir, merged, sequential);
  }
}
