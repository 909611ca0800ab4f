/** Deleting old files until the limits on count, bytes and age are met
    (go/journal/log_retention.go:122-185, go/journal/root_retention.go:491-533). */
module Retention {
  import opened JournalGraph
  import opened FilterStep

  /** A retained file; `stamp` is the time that orders it and that its age is judged by. */
  datatype File = File(path: bytes, stamp: uint64, size: uint64, active: bool)

  datatype Limits = Limits(maxFiles: Option<nat>, maxBytes: Option<nat>, cutoff: Option<uint64>)

  ghost predicate OldestFirst(files: seq<File>) {
    forall i, k :: 0 <= i < k < |files| ==> files[i].stamp <= files[k].stamp
  }

  /** The files that may be deleted, in order. */
  ghost function Deletable(files: seq<File>): seq<File> {
    if files == [] then [] else Pick(files[0]) + Deletable(files[1..])
  }

  ghost function Pick(f: File): seq<File> {
    if f.active then [] else [f]
  }

  ghost function Bytes(files: seq<File>): nat {
    if files == [] then 0 else Bytes(files[..|files|-1]) + files[|files|-1].size
  }

  /** The limits hold once the first `k` deletable files are gone. */
  ghost predicate Met(l: Limits, u: seq<File>, count: int, total: int, k: nat)
    requires k <= |u|
  {
    && (l.maxFiles.Some? ==> count - k <= l.maxFiles.value)
    && (l.maxBytes.Some? ==> total - Bytes(u[..k]) <= l.maxBytes.value)
    && (l.cutoff.Some? ==> forall i :: k <= i < |u| ==> u[i].stamp > l.cutoff.value)
  }

  /** Exactly the shortest prefix that meets the limits is deleted, or everything deletable. */
  ghost predicate ShortestPrefix(l: Limits, u: seq<File>, count: int, total: int, k: nat) {
    && k <= |u| && (k == |u| || Met(l, u, count, total, k))
    && NeededUpTo(l, u, count, total, k)
  }

  function SaturatingSub(a: nat, b: nat): nat {
    if a >= b then a - b else 0
  }

  // ----- finding the oldest deletable file

  lemma {:induction false} DeletableMembers(files: seq<File>)
    ensures forall f :: f in Deletable(files) ==> f in files && !f.active
    ensures OldestFirst(files) ==> OldestFirst(Deletable(files))
    decreases |files|
  {
    if files != [] {
      DeletableMembers(files[1..]);
      if OldestFirst(files) {
        assert OldestFirst(files[1..]);
        forall f | f in files[1..] ensures files[0].stamp <= f.stamp {
          var i :| 0 <= i < |files[1..]| && files[1..][i] == f;
          assert files[i+1] == f;
        }
        var rest := Deletable(files[1..]);
        assert forall i :: 0 <= i < |rest| ==> rest[i] in files[1..];
      }
    }
  }

  lemma {:induction false} DeletableSplit(a: seq<File>, b: seq<File>)
    ensures Deletable(a + b) == Deletable(a) + Deletable(b)
    decreases |a|
  {
    if a == [] {
      assert a + b == b;
    } else {
      assert (a + b)[1..] == a[1..] + b && (a + b)[0] == a[0];
      DeletableSplit(a[1..], b);
      assert Pick(a[0]) + (Deletable(a[1..]) + Deletable(b)) == Pick(a[0]) + Deletable(a[1..]) + Deletable(b);
    }
  }

  lemma {:induction false} NoneDeletable(files: seq<File>)
    requires forall i :: 0 <= i < |files| ==> files[i].active
    ensures Deletable(files) == []
    decreases |files|
  {
    if files != [] {
      assert files[0].active;
      NoneDeletable(files[1..]);
    }
  }

  /** Removing the first deletable file leaves the others. */
  lemma FirstDeletable(files: seq<File>, i: nat)
    requires i < |files| && !files[i].active && forall k :: 0 <= k < i ==> files[k].active
    ensures Deletable(files) == [files[i]] + Deletable(Dropped(files, i))
  {
    NoneDeletable(files[..i]);
    Rejoin(files, i);
    assert files[i..] == [files[i]] + files[i+1..];
    AfterActive(files[..i], files[i], files[i+1..]);
  }

  lemma AfterActive(left: seq<File>, f: File, right: seq<File>)
    requires Deletable(left) == [] && !f.active
    ensures Deletable(left + ([f] + right)) == [f] + Deletable(left + right)
  {
    BehindNone(left, [f] + right);
    BehindNone(left, right);
    Leading(f, right);
  }

  lemma BehindNone(left: seq<File>, right: seq<File>)
    requires Deletable(left) == []
    ensures Deletable(left + right) == Deletable(right)
  {
    DeletableSplit(left, right);
  }

  lemma Leading(f: File, right: seq<File>)
    requires !f.active
    ensures Deletable([f] + right) == [f] + Deletable(right)
  {
    assert ([f] + right)[1..] == right;
  }

  function Dropped(files: seq<File>, i: nat): seq<File>
    requires i < |files|
  {
    files[..i] + files[i+1..]
  }

  /** No prefix shorter than `n` would do. */
  ghost predicate NeededUpTo(l: Limits, u: seq<File>, count: int, total: int, n: nat)
    requires n <= |u|
  {
    forall j {:trigger Met(l, u, count, total, j)} :: 0 <= j < n ==> !Met(l, u, count, total, j)
  }

  lemma OneMoreNeeded(l: Limits, u: seq<File>, count: int, total: int, n: nat)
    requires n < |u| && NeededUpTo(l, u, count, total, n)
    requires || (l.maxFiles.Some? && count - n > l.maxFiles.value)
             || (l.maxBytes.Some? && total - Bytes(u[..n]) > l.maxBytes.value)
             || (l.cutoff.Some? && u[n].stamp <= l.cutoff.value)
    ensures NeededUpTo(l, u, count, total, n + 1)
  {
  }

  class RetentionRun {
    var files: seq<File>
    var total: nat
    var fileCount: int
    var deleted: seq<File>
    ghost const u: seq<File>
    ghost const count0: int
    ghost const total0: int

    constructor (files: seq<File>, total: nat, fileCount: int)
      requires OldestFirst(files) && total >= Bytes(Deletable(files))
      ensures Valid() && deleted == [] && u == Deletable(files) && count0 == fileCount && total0 == total
    {
      DeletableMembers(files);
      this.files, this.total, this.fileCount, deleted := files, total, fileCount, [];
      u, count0, total0 := Deletable(files), fileCount, total;
      Whole(Deletable(files));
    }

    /** What was deleted is a prefix of the deletable files, and the sums follow it. */
    ghost predicate Valid()
      reads this
    {
      && OldestFirst(files) && OldestFirst(u) && |deleted| <= |u|
      && deleted == u[..|deleted|] && Deletable(files) == u[|deleted|..]
      && fileCount == count0 - |deleted| && total == total0 - Bytes(deleted)
      && total0 >= Bytes(u)
    }

    /** The first file that may be deleted, within the cutoff if there is one. */
    method FindOldest(cutoff: Option<uint64>) returns (found: bool, i: nat)
      requires Valid()
      ensures found ==> i < |files| && !files[i].active && (forall k :: 0 <= k < i ==> files[k].active)
      ensures found ==> |deleted| < |u| && (cutoff.Some? ==> files[i].stamp <= cutoff.value)
      ensures !found && |deleted| < |u| ==> cutoff.Some? && u[|deleted|].stamp > cutoff.value
    {
      found, i := false, 0;
      while i < |files|
        invariant i <= |files| && forall k :: 0 <= k < i ==> files[k].active
      {
        if cutoff.Some? && files[i].stamp > cutoff.value {
          LaterDeletable(files, i, u[|deleted|..]);
          return;
        }
        if !files[i].active {
          FirstDeletable(files, i);
          return true, i;
        }
        i := i + 1;
      }
      NoneDeletable(files);
    }

    /** Deletes the oldest file that may be deleted. */
    method DeleteOldest(cutoff: Option<uint64>) returns (ok: bool)
      requires Valid()
      modifies this
      ensures Valid() && total <= old(total) && fileCount <= old(fileCount)
      ensures ok ==> |old(deleted)| < |u| && |deleted| == |old(deleted)| + 1
      ensures ok && cutoff.Some? ==> u[|old(deleted)|].stamp <= cutoff.value
      ensures !ok ==> deleted == old(deleted)
      ensures !ok && |deleted| < |u| ==> cutoff.Some? && u[|deleted|].stamp > cutoff.value
    {
      var found, i := FindOldest(cutoff);
      if !found { return false; }
      Remove(i);
      return true;
    }

    method Remove(i: nat)
      requires Valid() && i < |files| && !files[i].active && (forall k :: 0 <= k < i ==> files[k].active) && |deleted| < |u|
      modifies this
      ensures Valid() && total <= old(total) && fileCount <= old(fileCount)
      ensures |deleted| == |old(deleted)| + 1 && u[|old(deleted)|] == old(files[i])
    {
      ghost var n := |deleted|;
      var f := files[i];
      Removal(files, u, n, i);
      total := SaturatingSub(total, f.size);
      files := Dropped(files, i);
      fileCount := fileCount - 1;
      deleted := deleted + [f];
    }

    /** Deletes for the count, then for the bytes, then for the age: exactly the shortest prefix of
        the deletable files that meets the limits, or all of them; an active file never. */
    method EnforceLimits(l: Limits)
      requires Valid() && deleted == []
      modifies this
      ensures Valid() && ShortestPrefix(l, u, count0, total0, |deleted|)
      ensures forall f :: f in deleted ==> f in u
    {
      var more := DeleteForCount(l);
      if more { more := DeleteForBytes(l); }
      if more { DeleteForAge(l); }
    }

    /** No shorter prefix would do. */
    ghost predicate Needed(l: Limits)
      reads this
    {
      |deleted| <= |u| && NeededUpTo(l, u, count0, total0, |deleted|)
    }

    method DeleteForCount(l: Limits) returns (more: bool)
      requires Valid() && Needed(l)
      modifies this
      ensures Valid() && Needed(l)
      ensures if more then l.maxFiles.Some? ==> fileCount <= l.maxFiles.value else |deleted| == |u|
    {
      while l.maxFiles.Some? && fileCount > l.maxFiles.value
        invariant Valid() && Needed(l)
        decreases |u| - |deleted|
      {
        ghost var n := |deleted|;
        var ok := DeleteOldest(None);
        if !ok { return false; }
        OneMoreNeeded(l, u, count0, total0, n);
      }
      return true;
    }

    method DeleteForBytes(l: Limits) returns (more: bool)
      requires Valid() && Needed(l) && (l.maxFiles.Some? ==> fileCount <= l.maxFiles.value)
      modifies this
      ensures Valid() && Needed(l) && (more ==> l.maxFiles.Some? ==> fileCount <= l.maxFiles.value)
      ensures if more then |deleted| == |u| || (l.maxBytes.Some? ==> total <= l.maxBytes.value) else |deleted| == |u|
    {
      while l.maxBytes.Some? && total > l.maxBytes.value && |files| > 0
        invariant Valid() && Needed(l) && (l.maxFiles.Some? ==> fileCount <= l.maxFiles.value)
        decreases |u| - |deleted|
      {
        ghost var n := |deleted|;
        var ok := DeleteOldest(None);
        if !ok { return false; }
        OneMoreNeeded(l, u, count0, total0, n);
      }
      return true;
    }

    method DeleteForAge(l: Limits)
      requires Valid() && Needed(l) && (l.maxFiles.Some? ==> fileCount <= l.maxFiles.value)
      requires |deleted| == |u| || (l.maxBytes.Some? ==> total <= l.maxBytes.value)
      modifies this
      ensures Valid() && ShortestPrefix(l, u, count0, total0, |deleted|)
    {
      if l.cutoff.None? { return; }
      while |files| > 0 && files[0].stamp <= l.cutoff.value
        invariant Valid() && Needed(l) && (l.maxFiles.Some? ==> fileCount <= l.maxFiles.value)
        invariant |deleted| == |u| || (l.maxBytes.Some? ==> total <= l.maxBytes.value)
        decreases |u| - |deleted|
      {
        ghost var n := |deleted|;
        var ok := DeleteOldest(l.cutoff);
        if !ok { break; }
        OneMoreNeeded(l, u, count0, total0, n);
      }
      NoneTooOld(l);
    }

    /** When the oldest deletable file is not too old, none is. */
    lemma NoneTooOld(l: Limits)
      requires Valid() && l.cutoff.Some?
      requires |files| == 0 || files[0].stamp > l.cutoff.value || (|deleted| < |u| ==> u[|deleted|].stamp > l.cutoff.value)
      ensures forall i :: |deleted| <= i < |u| ==> u[i].stamp > l.cutoff.value
    {
      if |files| > 0 && files[0].stamp > l.cutoff.value {
        LaterDeletable(files, 0, u[|deleted|..]);
        forall i | |deleted| <= i < |u| ensures u[i].stamp > l.cutoff.value {
          assert u[i] == u[|deleted|..][i - |deleted|];
        }
      }
    }
  }

  /** Without its first deletable file the list has the next one in front. */
  lemma Removal(files: seq<File>, u: seq<File>, n: nat, i: nat)
    requires OldestFirst(files) && n < |u| && Deletable(files) == u[n..]
    requires i < |files| && !files[i].active && forall k :: 0 <= k < i ==> files[k].active
    ensures var left := Dropped(files, i);
            OldestFirst(left) && Deletable(left) == u[n+1..]
    ensures u[n] == files[i] && u[..n+1] == u[..n] + [files[i]]
    ensures Bytes(u[..n+1]) == Bytes(u[..n]) + files[i].size <= Bytes(u)
  {
    FirstDeletable(files, i);
    OldestFirstWithout(files, i);
    PrefixGrows(u, n, files[i], Deletable(Dropped(files, i)));
  }

  lemma Whole(u: seq<File>)
    ensures u[..0] == [] && u[0..] == u && Bytes([]) == 0
  {
  }

  lemma NextOf(u: seq<File>, n: nat, f: File, rest: seq<File>)
    requires n < |u| && u[n..] == [f] + rest
    ensures u[n] == f && u[n+1..] == rest && u[..n+1] == u[..n] + [f]
  {
    assert u[n..][0] == u[n] && u[n..][1..] == u[n+1..];
    assert ([f] + rest)[1..] == rest;
  }

  /** The next deletable file extends the deleted prefix by one. */
  lemma PrefixGrows(u: seq<File>, n: nat, f: File, rest: seq<File>)
    requires n < |u| && u[n..] == [f] + rest
    ensures u[n] == f && u[n+1..] == rest && u[..n+1] == u[..n] + [f]
    ensures Bytes(u[..n+1]) == Bytes(u[..n]) + f.size <= Bytes(u)
  {
    NextOf(u, n, f, rest);
    BytesMore(u, n);
    BytesPrefix(u, n + 1);
  }

  /** Once a file is past the cutoff, so is every deletable file from it on. */
  lemma LaterDeletable(files: seq<File>, i: nat, rest: seq<File>)
    requires OldestFirst(files) && i < |files| && (forall k :: 0 <= k < i ==> files[k].active) && rest == Deletable(files)
    ensures forall f :: f in rest ==> f.stamp >= files[i].stamp
  {
    NoneDeletable(files[..i]);
    Rejoin(files, i);
    BehindNone(files[..i], files[i..]);
    DeletableMembers(files[i..]);
    NotOlder(files, i);
  }

  lemma Rejoin(files: seq<File>, i: nat)
    requires i <= |files|
    ensures files == files[..i] + files[i..]
  {
  }

  lemma NotOlder(files: seq<File>, i: nat)
    requires OldestFirst(files) && i < |files|
    ensures forall f :: f in files[i..] ==> f.stamp >= files[i].stamp
  {
    forall f | f in files[i..] ensures f.stamp >= files[i].stamp {
      var k :| 0 <= k < |files[i..]| && files[i..][k] == f;
      assert f == files[i + k];
    }
  }

  lemma OldestFirstWithout(files: seq<File>, i: nat)
    requires OldestFirst(files) && i < |files|
    ensures OldestFirst(Dropped(files, i))
  {
  }

  lemma BytesMore(u: seq<File>, n: nat)
    requires n < |u|
    ensures Bytes(u[..n+1]) == Bytes(u[..n]) + u[n].size
  {
    assert u[..n+1][..n] == u[..n];
  }

  lemma {:induction false} BytesPrefix(u: seq<File>, n: nat)
    requires n <= |u|
    ensures Bytes(u[..n]) <= Bytes(u)
    decreases |u|
  {
    if n == |u| {
      assert u[..n] == u;
    } else {
      BytesPrefix(u[..|u|-1], n);
      assert u[..|u|-1][..n] == u[..n];
    }
  }

  // ----- the whole-root pass

  /** Where a file stands among the deletable ones. */
  lemma NextDeletable(files: seq<File>, i: nat)
    requires i < |files|
    ensures Deletable(files[..i+1]) == Deletable(files[..i]) + Pick(files[i])
    ensures |Deletable(files[..i+1])| <= |Deletable(files)| && Deletable(files[..i+1]) == Deletable(files)[..|Deletable(files[..i+1])|]
  {
    assert files[..i+1] == files[..i] + [files[i]];
    DeletableSplit(files[..i], [files[i]]);
    assert Deletable([files[i]]) == Pick(files[i]) + Deletable([files[i]][1..]);
    assert files == files[..i+1] + files[i+1..];
    DeletableSplit(files[..i+1], files[i+1..]);
  }

  lemma AtPlace(u: seq<File>, before: seq<File>, f: File, more: seq<File>)
    requires more == before + [f] && |more| <= |u| && more == u[..|more|]
    ensures |before| < |u| && u[|before|] == f && before == u[..|before|]
  {
    assert u[..|more|][|before|] == f;
    assert u[..|more|][..|before|] == u[..|before|];
  }

  /** What the limits say at one file of the pass. */
  method MustDelete(l: Limits, count: int, bytes: nat, stamp: uint64) returns (must: bool)
    ensures must <==> || (l.maxFiles.Some? && count > l.maxFiles.value)
                      || (l.maxBytes.Some? && bytes > l.maxBytes.value)
                      || (l.cutoff.Some? && stamp <= l.cutoff.value)
  {
    must := (l.maxBytes.Some? && bytes > l.maxBytes.value) || (l.maxFiles.Some? && count > l.maxFiles.value)
      || (l.cutoff.Some? && stamp <= l.cutoff.value);
  }

  /** How far the pass has come: everything deletable so far is deleted, or the limits are met. */
  ghost predicate Pruning(l: Limits, u: seq<File>, count0: int, total: nat, seen: nat, deleted: seq<File>, count: int, bytes: nat) {
    && |deleted| <= seen <= |u| && deleted == u[..|deleted|]
    && count == count0 - |deleted| && bytes == total - Bytes(deleted)
    && NeededUpTo(l, u, count0, total, |deleted|)
    && (|deleted| == seen || Met(l, u, count0, total, |deleted|))
  }

  lemma PruneKeep(l: Limits, u: seq<File>, count0: int, total: nat, seen: nat, deleted: seq<File>, count: int, bytes: nat)
    requires Pruning(l, u, count0, total, seen, deleted, count, bytes) && seen < |u| && OldestFirst(u)
    requires !(l.maxFiles.Some? && count > l.maxFiles.value) && !(l.maxBytes.Some? && bytes > l.maxBytes.value)
    requires !(l.cutoff.Some? && u[seen].stamp <= l.cutoff.value)
    ensures Pruning(l, u, count0, total, seen + 1, deleted, count, bytes)
  {
  }

  lemma PruneDelete(l: Limits, u: seq<File>, count0: int, total: nat, seen: nat, deleted: seq<File>, count: int, bytes: nat)
    requires Pruning(l, u, count0, total, seen, deleted, count, bytes) && seen < |u| && total >= Bytes(u)
    requires || (l.maxFiles.Some? && count > l.maxFiles.value)
             || (l.maxBytes.Some? && bytes > l.maxBytes.value)
             || (l.cutoff.Some? && u[seen].stamp <= l.cutoff.value)
    ensures Pruning(l, u, count0, total, seen + 1, deleted + [u[seen]], count - 1, SaturatingSub(bytes, u[seen].size))
  {
    assert |deleted| == seen;
    OneMoreNeeded(l, u, count0, total, seen);
    BytesMore(u, seen);
    BytesPrefix(u, seen + 1);
    assert u[..seen+1] == u[..seen] + [u[seen]];
  }

  /** Goes over all files once, oldest first, and deletes while a limit is exceeded or the file is
      too old: again the shortest prefix of the files that are not active. */
  method PruneRoot(l: Limits, files: seq<File>, total: nat) returns (deleted: seq<File>)
    requires OldestFirst(files) && total >= Bytes(Deletable(files))
    ensures |deleted| <= |Deletable(files)| && deleted == Deletable(files)[..|deleted|]
    ensures ShortestPrefix(l, Deletable(files), |files|, total, |deleted|)
  {
    ghost var u := Deletable(files);
    DeletableMembers(files);
    var count: int, bytes: nat := |files|, total;
    deleted := [];
    for i := 0 to |files|
      invariant Pruning(l, u, |files|, total, |Deletable(files[..i])|, deleted, count, bytes)
    {
      NextDeletable(files, i);
      if !files[i].active {
        AtPlace(u, Deletable(files[..i]), files[i], Deletable(files[..i+1]));
        var must := MustDelete(l, count, bytes, files[i].stamp);
        if must {
          PruneDelete(l, u, |files|, total, |Deletable(files[..i])|, deleted, count, bytes);
          deleted := deleted + [files[i]];
          count := count - 1;
          bytes := SaturatingSub(bytes, files[i].size);
        } else {
          PruneKeep(l, u, |files|, total, |Deletable(files[..i])|, deleted, count, bytes);
        }
      }
    }
    assert files[..|files|] == files;
  }
}
