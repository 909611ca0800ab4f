/** Why a sealed journal is sealed: two files that pass verification with one key and carry the same
    tags are the same up to the last tag, unless two pieces of text share a keyed digest
    (go/journal/verify.go:596-651). */
module SealedTampering {
  import opened JournalGraph
  import opened SealedSpec

  /** No two texts have the same digest under one key. */
  ghost predicate CollisionFree(mac: Mac) {
    forall k, x, y :: mac(k, x) == mac(k, y) ==> x == y
  }

  /** Everything up to the last tag. */
  ghost function SealedPart(objects: seq<Object>): seq<Object> {
    objects[..|objects| - |SinceTag(objects)|]
  }

  lemma {:induction false} NoTagsSince(objects: seq<Object>)
    ensures forall i :: 0 <= i < |SinceTag(objects)| ==> !SinceTag(objects)[i].Tag?
    decreases |objects|
  {
    if objects != [] && !objects[|objects|-1].Tag? { NoTagsSince(objects[..|objects|-1]); }
  }

  lemma PartSplits(objects: seq<Object>)
    ensures objects == SealedPart(objects) + SinceTag(objects)
  {
    SinceTagSuffix(objects);
  }

  /** An object that is no tag leaves the sealed part as it is. */
  lemma PartStep(objects: seq<Object>)
    requires objects != [] && !objects[|objects|-1].Tag?
    ensures SealedPart(objects) == SealedPart(objects[..|objects|-1]) && Tags(objects) == Tags(objects[..|objects|-1])
  {
    var init := objects[..|objects|-1];
    assert |SinceTag(objects)| == |SinceTag(init)| + 1;
    Shorter(objects, |init|, |init| - |SinceTag(init)|);
  }

  lemma Shorter(s: seq<Object>, n: nat, k: nat)
    requires k <= n <= |s|
    ensures s[..n][..k] == s[..k]
  {
  }

  predicate EndsWithTag(objects: seq<Object>) {
    objects == [] || objects[|objects|-1].Tag?
  }

  lemma {:induction false} PartEndsWithTag(objects: seq<Object>)
    ensures EndsWithTag(SealedPart(objects)) && Tags(SealedPart(objects)) == Tags(objects)
    decreases |objects|
  {
    if EndsWithTag(objects) {
      assert SealedPart(objects) == objects;
    } else {
      PartStep(objects);
      PartEndsWithTag(objects[..|objects|-1]);
    }
  }

  lemma SealsPrefix(objects: seq<Object>, n: nat, key: SealKey, rule: EpochRule)
    requires n <= |objects| && SealsPass(objects, key, rule)
    ensures SealsPass(objects[..n], key, rule)
  {
    forall i | 0 <= i < n ensures SealedAt(objects[..n], i, key, rule) {
      assert SealedAt(objects, i, key, rule);
      assert objects[..n][..i] == objects[..i];
    }
  }

  /** Objects of which no digest is left out are determined by what is covered of them. */
  lemma SameChunks(a: seq<Object>, b: seq<Object>)
    requires Chunks(a) == Chunks(b) && forall i :: 0 <= i < |a| ==> !a[i].Tag?
    ensures a == b
  {
    ChunksDetermine(a, b);
  }

  /** Two tags with one digest cover the same objects. */
  lemma SameCovered(a: seq<Object>, b: seq<Object>, tag: TagRecord, key: SealKey)
    requires CollisionFree(key.mac) && TagSigned(a, tag, key) && TagSigned(b, tag, key) && Tags(a) == Tags(b)
    ensures SinceTag(a) == SinceTag(b)
  {
    var own := [Chunked(Tag(tag))];
    assert Covered(a) + own == Covered(b) + own;
    SameInit(Covered(a), Covered(b), own[0]);
    var header: seq<Chunk> := if Tags(a) == [] then [HeaderRanges] else [];
    SameTail(header, Chunks(SinceTag(a)), Chunks(SinceTag(b)));
    NoTagsSince(a);
    SameChunks(SinceTag(a), SinceTag(b));
  }

  lemma SameInit(x: seq<Chunk>, y: seq<Chunk>, c: Chunk)
    requires x + [c] == y + [c]
    ensures x == y
  {
    assert (x + [c])[..|x|] == x && (y + [c])[..|y|] == y;
  }

  lemma SameTail(header: seq<Chunk>, x: seq<Chunk>, y: seq<Chunk>)
    requires header + x == header + y
    ensures x == y
  {
    assert (header + x)[|header|..] == x && (header + y)[|header|..] == y;
  }

  lemma LastTag(objects: seq<Object>)
    requires objects != [] && objects[|objects|-1].Tag?
    ensures Tags(objects) == Tags(objects[..|objects|-1]) + [objects[|objects|-1].tag]
  {
  }

  /** The last tags of two such files are the same, and so is what they cover. */
  lemma LastSame(a: seq<Object>, b: seq<Object>, key: SealKey, rule: EpochRule, rule': EpochRule)
    requires CollisionFree(key.mac) && SealsPass(a, key, rule) && SealsPass(b, key, rule') && Tags(a) == Tags(b)
    requires a != [] && b != [] && EndsWithTag(a) && EndsWithTag(b)
    ensures a[|a|-1] == b[|b|-1] && SinceTag(a[..|a|-1]) == SinceTag(b[..|b|-1]) && Tags(a[..|a|-1]) == Tags(b[..|b|-1])
  {
    var a0, b0, tag := a[..|a|-1], b[..|b|-1], a[|a|-1].tag;
    LastTag(a);
    LastTag(b);
    SameTags(Tags(a0), Tags(b0), tag, b[|b|-1].tag);
    assert SealedAt(a, |a| - 1, key, rule) && SealedAt(b, |b| - 1, key, rule');
    SameCovered(a0, b0, tag, key);
  }

  /** What comes before the last tag and what it covers. */
  lemma Before(a: seq<Object>, key: SealKey, rule: EpochRule)
    requires a != [] && SealsPass(a, key, rule)
    ensures var part := SealedPart(a[..|a|-1]);
            && |part| < |a| && SealsPass(part, key, rule) && EndsWithTag(part) && Tags(part) == Tags(a[..|a|-1])
            && a == part + SinceTag(a[..|a|-1]) + [a[|a|-1]]
  {
    var a0 := a[..|a|-1];
    PartEndsWithTag(a0);
    PartSplits(a0);
    SealsPrefix(a, |SealedPart(a0)|, key, rule);
    assert a[..|SealedPart(a0)|] == SealedPart(a0);
    assert a == a0 + [a[|a|-1]];
  }

  /** Files that end with their last tag and carry the same tags are the same. */
  lemma {:induction false} SameUpToTag(a: seq<Object>, b: seq<Object>, key: SealKey, rule: EpochRule, rule': EpochRule)
    requires CollisionFree(key.mac) && SealsPass(a, key, rule) && SealsPass(b, key, rule') && Tags(a) == Tags(b)
    requires EndsWithTag(a) && EndsWithTag(b)
    ensures a == b
    decreases |a|
  {
    if a == [] {
      if b != [] { LastTag(b); }
    } else if b == [] {
      LastTag(a);
    } else {
      LastSame(a, b, key, rule, rule');
      Before(a, key, rule);
      Before(b, key, rule');
      SameUpToTag(SealedPart(a[..|a|-1]), SealedPart(b[..|b|-1]), key, rule, rule');
    }
  }

  lemma SameTags(a: seq<TagRecord>, b: seq<TagRecord>, x: TagRecord, y: TagRecord)
    requires a + [x] == b + [y]
    ensures a == b && x == y
  {
    assert (a + [x])[|a|] == x && (b + [y])[|b|] == y;
    assert (a + [x])[..|a|] == a && (b + [y])[..|b|] == b;
  }

  /** Whoever changes, drops, adds or moves an object before the last tag of a sealed file has to
      change a tag, or the file no longer passes. */
  lemma TamperEvident(a: seq<Object>, b: seq<Object>, header: FileHeader, header': FileHeader, key: SealKey)
    requires CollisionFree(key.mac) && Accepted(a, header, key) && Accepted(b, header', key)
    requires Tags(a) == Tags(b)
    ensures SealedPart(a) == SealedPart(b)
  {
    PartEndsWithTag(a);
    PartEndsWithTag(b);
    SealsPrefix(a, |SealedPart(a)|, key, header.rule);
    SealsPrefix(b, |SealedPart(b)|, key, header'.rule);
    SameUpToTag(SealedPart(a), SealedPart(b), key, header.rule, header'.rule);
  }
}
