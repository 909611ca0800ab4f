/** The arithmetic of histograms: laying out buckets, finding the bucket of a time, and spreading
    an estimate over a range (go/journal/explorer.go:2425-2470, 2801-2888). */
module HistogramTiling {
  import opened JournalGraph
  import opened NumberTheory
  import H = ExplorerHistogram

  datatype Bucket = Bucket(start: nat, end: nat)

  /** The buckets follow each other without gap or overlap from `lo` to `hi`. */
  ghost predicate Tiles(bs: seq<Bucket>, lo: nat, hi: nat) {
    && |bs| > 0 && bs[0].start == lo && bs[|bs|-1].end == hi
    && (forall i :: 0 <= i < |bs| ==> bs[i].start < bs[i].end)
    && (forall i, k :: 0 <= i < k < |bs| && k == i + 1 ==> bs[i].end == bs[k].start)
  }

  /** The bars in use, in seconds. */
  const WIDTHS: seq<nat> := [1, 2, 5, 10, 15, 30, 60, 120, 180, 300, 600, 900, 1800, 3600, 7200, 21600, 28800, 43200,
                             86400, 172800, 259200, 432000, 604800, 1209600, 2592000]

  const SECOND: nat := 1_000_000

  /** A listed width of which the range holds at least `target`. */
  ghost predicate Fits(widths: seq<nat>, duration: nat, target: nat, i: nat)
    requires forall k :: 0 <= k < |widths| ==> widths[k] > 0
  {
    i < |widths| && duration / (widths[i] * SECOND) >= target
  }

  /** The last listed width that fits; one second when none does. */
  method LastFitting(widths: seq<nat>, duration: nat, target: nat) returns (seconds: nat, ghost at: nat)
    requires forall k :: 0 <= k < |widths| ==> widths[k] > 0
    ensures at < |widths| ==> Fits(widths, duration, target, at) && seconds == widths[at]
    ensures at >= |widths| ==> seconds == 1
    ensures forall k: nat :: Fits(widths, duration, target, k) ==> k <= at < |widths|
  {
    var i := |widths|;
    while i > 0
      invariant 0 <= i <= |widths|
      invariant forall k: nat :: Fits(widths, duration, target, k) ==> k < i
    {
      i := i - 1;
      if duration / (widths[i] * SECOND) >= target {
        assert Fits(widths, duration, target, i);
        return widths[i], i;
      }
    }
    return 1, |widths|;
  }

  lemma WidthsRise()
    ensures forall i :: 0 <= i < |WIDTHS| ==> 0 < WIDTHS[i] <= 2592000
    ensures forall i, k :: 0 <= i <= k < |WIDTHS| ==> WIDTHS[i] <= WIDTHS[k]
  {
  }

  /** The widest listed bar of which the range holds at least `target`, or one second; in any case
      a whole number of seconds. */
  method BarWidth(duration: nat, target: nat) returns (width: nat)
    ensures width % SECOND == 0 && SECOND <= width <= 2592000 * SECOND
    ensures duration / width >= target || width == SECOND
    ensures forall i :: 0 <= i < |WIDTHS| && duration / (WIDTHS[i] * SECOND) >= target ==> WIDTHS[i] * SECOND <= width
  {
    WidthsRise();
    var seconds, at := LastFitting(WIDTHS, duration, target);
    width := seconds * SECOND;
    ModMultiple(seconds, SECOND);
    forall i | 0 <= i < |WIDTHS| && duration / (WIDTHS[i] * SECOND) >= target ensures WIDTHS[i] * SECOND <= width {
      assert Fits(WIDTHS, duration, target, i);
    }
  }

  function Baseline(value: nat, width: nat): (b: nat)
    requires width > 0
    ensures b <= value < b + width && b % width == 0
  {
    assert (value - value % width) % width == 0 by {
      DivMod(value, width);
      ModMultiple(value / width, width);
    }
    value - value % width
  }

  /** The layout of a histogram: its start, its width, how many buckets, and where the last begins. */
  datatype Layout = Layout(start: nat, width: nat, count: nat, end: nat)

  /** A layout whose buckets all have the width, but the last, which holds the end alone. */
  ghost predicate Even(l: Layout) {
    l.width > 0 && 2 <= l.count <= 1001 && l.end == l.start + l.width * (l.count - 1)
  }

  /** Lays out a range. The layout always starts at or before it; it reaches its end unless the
      buckets are capped and rounding their width down cuts off what exceeds a multiple of 1000. */
  method LayOut(start: nat, end: nat, width: nat) returns (l: Layout)
    requires start < end && width > 0
    ensures Even(l) && l.start == Baseline(start, width) <= start
    ensures l.end <= Baseline(end, width) + width
    ensures var e := Baseline(end, width) + width;
            var span := e - l.start;
            && l.end == (if span / width <= 1000 then e else e - span % 1000)
            && (end <= l.end <==> span / width <= 1000 || span % 1000 <= e - end)
  {
    var s, e := Baseline(start, width), Baseline(end, width) + width;
    BaselinesApart(start, end, width);
    var span := e - s;
    var steps := span / width;
    Multiple(span, width);
    if steps + 1 <= 1001 {
      l := Layout(s, width, steps + 1, e);
      EvenLayout(l, span, steps);
      return;
    }
    WideEnough(span, width, steps);
    DivMod(span, 1000);
    l := Layout(s, span / 1000, 1001, s + span / 1000 * 1000);
    return;
  }

  lemma EvenLayout(l: Layout, span: nat, steps: nat)
    requires l.width > 0 && 1 <= steps <= 1000 && span == l.width * steps && l.count == steps + 1 && l.end == l.start + span
    ensures Even(l)
  {
  }

  lemma BaselinesApart(start: nat, end: nat, width: nat)
    requires start < end && width > 0
    ensures Baseline(start, width) < Baseline(end, width) + width
    ensures (Baseline(end, width) + width - Baseline(start, width)) % width == 0
    ensures Baseline(end, width) + width - Baseline(start, width) >= width
  {
    var a, b := start / width, end / width;
    DivMod(start, width);
    DivMod(end, width);
    assert Baseline(start, width) == a * width && Baseline(end, width) == b * width;
    assert b * width + width - a * width == (b + 1 - a) * width;
    ModMultiple(b + 1 - a, width);
    Monotone(a, b, start, end, width);
  }

  lemma Monotone(a: nat, b: nat, start: nat, end: nat, width: nat)
    requires width > 0 && start < end && a * width <= start && end < b * width + width
    ensures a * width <= b * width
  {
    if a > b { MulMonotone(b + 1, a, width); } else { MulMonotone(a, b, width); }
  }

  lemma Multiple(d: nat, width: nat)
    requires width > 0 && d % width == 0 && d >= width
    ensures d == width * (d / width) && d / width >= 1
  {
    DivMod(d, width);
  }

  lemma WideEnough(d: nat, width: nat, steps: nat)
    requires width > 0 && d == width * steps && steps > 1000
    ensures d / 1000 > 0
  {
    MulMonotone(1, width, steps);
  }

  // ----- the buckets

  /** The `i`-th bucket of a layout. */
  function BucketAt(l: Layout, i: nat): Bucket
    requires i < l.count
  {
    var start := l.start + l.width * i;
    Bucket(start, if i + 1 == l.count then l.end + 1 else start + l.width)
  }

  lemma NextStart(l: Layout, i: nat)
    ensures l.start + l.width * i + l.width == l.start + l.width * (i + 1)
  {
  }

  /** The buckets tile the range from the start of the layout through its end; there are at most 1001. */
  method NewBuckets(l: Layout) returns (bs: seq<Bucket>)
    requires Even(l)
    ensures |bs| == l.count <= 1001 && Tiles(bs, l.start, l.end + 1)
    ensures forall i :: 0 <= i < |bs| ==> bs[i] == BucketAt(l, i)
  {
    bs := [];
    for i := 0 to l.count
      invariant |bs| == i && forall k :: 0 <= k < i ==> bs[k] == BucketAt(l, k)
    {
      bs := bs + [BucketAt(l, i)];
    }
    LayoutTiles(l, bs);
  }

  lemma LayoutTiles(l: Layout, bs: seq<Bucket>)
    requires Even(l) && |bs| == l.count && forall i :: 0 <= i < |bs| ==> bs[i] == BucketAt(l, i)
    ensures Tiles(bs, l.start, l.end + 1)
  {
    forall i, k | 0 <= i < k < |bs| && k == i + 1 ensures bs[i].end == bs[k].start {
      NextStart(l, i);
    }
  }

  lemma Fits64(l: Layout)
    requires Even(l) && l.end <= MAX_U64
    ensures l.start <= MAX_U64 && l.width <= MAX_U64
  {
    WidthAtMost(l.width, l.count - 1);
  }

  lemma WidthAtMost(width: nat, n: nat)
    requires n >= 1
    ensures width <= width * n
  {
    MulMonotone(1, n, width);
    assert n * width == width * n;
  }

  /** The layout as row counting knows it. */
  function BucketsOf(l: Layout): H.Buckets
    requires Even(l) && l.end <= MAX_U64
  {
    Fits64(l);
    H.Buckets(l.start, l.width, l.count)
  }

  /** The arithmetic index picks the bucket that contains the time. */
  lemma IndexContains(l: Layout, realtime: uint64)
    requires Even(l) && l.start <= realtime <= l.end <= MAX_U64
    ensures var i := H.BucketIndex(BucketsOf(l), realtime);
            0 <= i < l.count && BucketAt(l, i).start <= realtime < BucketAt(l, i).end
  {
    var q, r := Located(l, realtime - l.start);
    QuotientIndex(BucketsOf(l), realtime, q);
    QuotientHolds(l, realtime - l.start, q, r);
  }

  /** Within the layout the quotient counts a bucket; in the last there is room for its start alone. */
  lemma Located(l: Layout, d: nat) returns (q: nat, r: nat)
    requires Even(l) && d <= l.width * (l.count - 1)
    ensures q == d / l.width && d == q * l.width + r && r < l.width && q < l.count && (q == l.count - 1 ==> r == 0)
  {
    q, r := d / l.width, d % l.width;
    DivMod(d, l.width);
    QuotientAtMost(d, l.width, l.count - 1);
    assert q == l.count - 1 ==> d == q * l.width;
  }

  lemma QuotientIndex(b: H.Buckets, realtime: uint64, q: nat)
    requires b.width > 0 && b.start <= realtime && q == (realtime - b.start) / b.width && q < b.count <= 1001
    ensures H.BucketIndex(b, realtime) == q
  {
  }

  lemma QuotientHolds(l: Layout, d: nat, q: nat, r: nat)
    requires Even(l) && q < l.count && d == q * l.width + r && r < l.width
    requires q == l.count - 1 ==> r == 0
    ensures BucketAt(l, q).start <= l.start + d < BucketAt(l, q).end
  {
    assert l.width * q == q * l.width;
  }

  /** Times before the layout count in its first bucket, times after it in its last. */
  lemma IndexOutside(l: Layout, realtime: uint64)
    requires Even(l) && l.end <= MAX_U64 && (realtime < l.start || l.end < realtime)
    requires InReach(l, realtime)
    ensures H.BucketIndex(BucketsOf(l), realtime) == if realtime < l.start then 0 else l.count - 1
  {
    if realtime > l.end {
      var d := realtime - l.start;
      QuotientAtLeast(d, l.width, l.count - 1);
      IndexBeyond(BucketsOf(l), realtime, d / l.width);
    }
  }

  lemma IndexBeyond(b: H.Buckets, realtime: uint64, q: nat)
    requires b.width > 0 && b.start <= realtime && q == (realtime - b.start) / b.width && 0 < b.count
    requires b.count - 1 <= q <= 0x7FFF_FFFF_FFFF_FFFF
    ensures H.BucketIndex(b, realtime) == b.count - 1
  {
  }

  lemma OneBucket(l: Layout, t: nat, i: nat, k: nat)
    requires Even(l) && i < l.count && k < l.count && i != k && BucketAt(l, i).start <= t < BucketAt(l, i).end
    ensures !(BucketAt(l, k).start <= t < BucketAt(l, k).end)
  {
    if i < k {
      MulMonotone(i + 1, k, l.width);
      NextStart(l, i);
    } else {
      MulMonotone(k + 1, i, l.width);
      NextStart(l, k);
    }
  }

  /** The time is not so far beyond the layout that its bucket's number leaves 63 bits. */
  ghost predicate InReach(l: Layout, t: nat)
    requires Even(l)
  {
    t > l.end ==> (t - l.start) / l.width <= 0x7FFF_FFFF_FFFF_FFFF
  }

  /** Where a time counts: in the bucket that contains it, or at the near end. */
  lemma IndexDecides(l: Layout, t: uint64, k: nat)
    requires Even(l) && l.end <= MAX_U64 && k < l.count && InReach(l, t)
    ensures var b := BucketAt(l, k);
            H.BucketIndex(BucketsOf(l), t) == k <==>
              (b.start <= t < b.end || (k == 0 && t < l.start) || (k == l.count - 1 && t > l.end))
  {
    var i := H.BucketIndex(BucketsOf(l), t);
    if l.start <= t <= l.end {
      IndexContains(l, t);
      if i != k { OneBucket(l, t, i, k); }
    } else {
      IndexOutside(l, t);
      OutsideAll(l, t, k);
    }
  }

  /** The rows that count in a bucket are those whose time lies in it; the first bucket also counts
      what comes before, and the last what comes after. */
  lemma BucketRows(l: Layout, j: Journal, rows: seq<uint64>, e: uint64, k: nat)
    requires Even(l) && l.end <= MAX_U64 && k < l.count && e in rows && e in j.entries && InReach(l, j.entries[e].realtime)
    ensures var t, b := j.entries[e].realtime, BucketAt(l, k);
            e in H.RowsIn(j, BucketsOf(l), rows, k) <==>
              (b.start <= t < b.end || (k == 0 && t < l.start) || (k == l.count - 1 && t > l.end))
  {
    H.RowsInMembers(j, BucketsOf(l), rows, k);
    IndexDecides(l, j.entries[e].realtime, k);
  }

  lemma OutsideAll(l: Layout, t: nat, k: nat)
    requires Even(l) && k < l.count && (t < l.start || t > l.end)
    ensures !(BucketAt(l, k).start <= t < BucketAt(l, k).end)
  {
    if k + 1 < l.count {
      MulMonotone(k + 1, l.count - 1, l.width);
      NextStart(l, k);
    }
    MulMonotone(0, k, l.width);
  }

  lemma QuotientAtLeast(d: nat, w: nat, n: nat)
    requires w > 0 && d >= w * n
    ensures d / w >= n
  {
    var q := d / w;
    DivMod(d, w);
    if q < n { MulMonotone(q + 1, n, w); }
  }

  lemma QuotientAtMost(d: nat, w: nat, n: nat)
    requires w > 0 && d <= w * n
    ensures d / w <= n && (d / w == n ==> d == w * n)
  {
    var q := d / w;
    DivMod(d, w);
    if q > n { MulMonotone(n + 1, q, w); } else { MulMonotone(q, n, w); }
  }

  // ----- a whole histogram

  /** The range a query asks for: at least one microsecond, an hour by default. */
  function Bounds(after: Option<nat>, before: Option<nat>): (r: (nat, nat))
    ensures r.0 < r.1
  {
    var start := if after.Some? then after.value else 0;
    var end := if before.Some? then before.value else start + 3_600_000_000;
    if end <= start then (start, start + 1) else (start, end)
  }

  /** The range asked for is taken as it is; without a start it begins at 0, without an end, or with
      one that is not later than the start, it is made to end after it. */
  lemma BoundsAsked(after: Option<nat>, before: Option<nat>)
    ensures var (start, end) := Bounds(after, before);
            && start == (if after.Some? then after.value else 0)
            && (before.Some? && before.value > start ==> end == before.value)
            && (before.Some? && before.value <= start ==> end == start + 1)
            && (before.None? ==> end - start == 3600 * SECOND)
  {
  }

  /** Whole seconds never lose anything to the cap. */
  lemma SecondsDivide(start: nat, end: nat, width: nat)
    requires start < end && width > 0 && width % SECOND == 0
    ensures (Baseline(end, width) + width - Baseline(start, width)) % 1000 == 0
  {
    var d := Baseline(end, width) + width - Baseline(start, width);
    BaselinesApart(start, end, width);
    DivMod(d, width);
    DivMod(width, SECOND);
    var k := (d / width) * (width / SECOND) * 1000;
    assert d == (d / width) * width;
    assert width == (width / SECOND) * SECOND;
    Regroup(d / width, width / SECOND);
    ModMultiple(k, 1000);
  }

  lemma Regroup(a: nat, b: nat)
    ensures a * (b * SECOND) == a * b * 1000 * 1000
  {
    Assoc(a, b, SECOND);
  }

  /** The histogram of a query: at most 1001 buckets without gap or overlap that reach from before
      the start of the range to beyond its end, and every time of the range falls into the bucket
      that the arithmetic index picks. It fits 64 bits unless the range ends within a bar's width
      of the last microsecond. */
  method NewHistogram(after: Option<nat>, before: Option<nat>, target: int) returns (bs: seq<Bucket>, l: Layout)
    ensures Even(l) && |bs| == l.count <= 1001 && Tiles(bs, l.start, l.end + 1)
    ensures l.start <= Bounds(after, before).0 && Bounds(after, before).1 < l.end
    ensures Bounds(after, before).1 + 2592000 * SECOND < MAX_U64 ==> l.end < MAX_U64
    ensures l.end <= MAX_U64 ==>
              forall t: uint64 :: Bounds(after, before).0 <= t <= Bounds(after, before).1 ==> Counted(bs, l, t)
  {
    var (start, end) := Bounds(after, before);
    var width := BarWidth(end - start, if target < 1 then 1 else target);
    l := LayOut(start, end, width);
    SecondsDivide(start, end, width);
    bs := NewBuckets(l);
    if l.end <= MAX_U64 {
      forall t: uint64 | start <= t <= end ensures Counted(bs, l, t) {
        IndexContains(l, t);
      }
    }
  }

  /** The time is counted in the bucket that contains it. */
  ghost predicate Counted(bs: seq<Bucket>, l: Layout, t: uint64)
    requires Even(l) && l.end <= MAX_U64
  {
    var i := H.BucketIndex(BucketsOf(l), t);
    0 <= i < |bs| && bs[i].start <= t < bs[i].end
  }

  // ----- spreading an estimate

  const WORD: nat := 0x1_0000_0000_0000_0000

  /** A 128-bit product divided by a word; saturates when the quotient does not fit. */
  function MulDiv(left: uint64, right: uint64, divisor: uint64): nat {
    if divisor == 0 then 0
    else if left * right / WORD >= divisor then WORD - 1
    else left * right / divisor
  }

  /** A share of an estimate never saturates. */
  lemma ShareExact(part: uint64, entries: uint64, total: uint64)
    requires 0 < total && part <= total
    ensures MulDiv(part, entries, total) == part * entries / total <= entries
  {
    MulMonotone(part, total, entries);
    QuotientAtMost(part * entries, total, entries);
    HighWord(part, entries, total);
  }

  lemma HighWord(part: uint64, entries: uint64, total: uint64)
    requires 0 < total && part <= total
    ensures part * entries / WORD < total
  {
    var p := part * entries;
    MulMonotone(part, total, entries);
    MulMonotone(entries, WORD - 1, total);
    assert p <= total * (WORD - 1);
  }

  /** Where a position lies within the range. */
  function Clamp(from: nat, to: nat, position: nat): nat
    requires from <= to
  {
    if position <= from then from else if position >= to then to else position
  }

  /** What was handed out is at most the covered part of the estimate, and each touched bucket
      has lost less than one. */
  ghost predicate Spread(total: nat, entries: nat, covered: nat, given: nat, touched: nat) {
    && total > 0 && (touched == 0 ==> given == 0)
    && total * given <= entries * covered <= total * given + touched * (total - 1)
  }

  lemma SpreadStep(total: nat, entries: nat, covered: nat, given: nat, touched: nat, part: nat, share: nat)
    requires Spread(total, entries, covered, given, touched) && share == part * entries / total
    ensures Spread(total, entries, covered + part, given + share, touched + 1)
  {
    DivMod(part * entries, total);
    var r := (part * entries) % total;
    assert entries * (covered + part) == entries * covered + part * entries;
    assert total * (given + share) == total * given + share * total;
    assert (touched + 1) * (total - 1) == touched * (total - 1) + (total - 1);
  }

  lemma SpreadEnds(total: nat, entries: nat, given: nat, touched: nat)
    requires Spread(total, entries, total, given, touched) && entries > 0
    ensures given <= entries < given + touched
  {
    if given > entries { MulMonotone(entries + 1, given, total); }
    if touched == 0 {
      NoneTouched(total, entries, given);
    } else if entries >= given + touched {
      MulMonotone(given + touched, entries, total);
      SplitTouched(total, given, touched);
    }
  }

  lemma SplitTouched(total: nat, given: nat, touched: nat)
    requires total > 0
    ensures (given + touched) * total == total * given + touched * (total - 1) + touched
  {
  }

  lemma NoneTouched(total: nat, entries: nat, given: nat)
    requires total > 0
    ensures entries * total <= total * given ==> entries <= given
  {
    if entries > given { MulMonotone(given + 1, entries, total); }
  }

  ghost function Sum(s: seq<nat>): nat {
    if s == [] then 0 else Sum(s[..|s|-1]) + s[|s|-1]
  }

  lemma SumAppend(s: seq<nat>, x: nat)
    ensures Sum(s + [x]) == Sum(s) + x
  {
    assert (s + [x])[..|s|] == s;
  }

  function Max(a: nat, b: nat): nat { if a > b then a else b }
  function Min(a: nat, b: nat): nat { if a < b then a else b }

  /** How much of the range a bucket covers. */
  function Overlap(b: Bucket, from: nat, to: nat): nat {
    var start, end := Max(b.start, from), Min(b.end, to);
    if start < end then end - start else 0
  }

  /** The share of one bucket, rounded down. */
  ghost predicate IsShare(share: nat, b: Bucket, from: nat, to: nat, entries: nat)
    requires from < to
  {
    share == Overlap(b, from, to) * entries / (to - from)
  }

  lemma NoShare(b: Bucket, from: nat, to: nat, entries: nat)
    requires from < to && Overlap(b, from, to) == 0
    ensures IsShare(0, b, from, to, entries)
  {
  }

  /** Spreads an estimate over the part of a range that lies inside the histogram. Every bucket
      gets its share of that part, rounded down, so at most the estimate is handed out and less
      than one is lost per touched bucket. Nothing is handed out when no part lies inside. */
  method SpreadEstimate(bs: seq<Bucket>, lo: nat, hi: nat, fromTime: uint64, toTime: uint64, entries: uint64) returns (shares: seq<nat>, touched: nat)
    requires bs == [] || (Tiles(bs, lo, hi) && hi <= MAX_U64)
    ensures |shares| <= |bs| && touched <= |bs|
    ensures var from, to := Max(fromTime, lo), Min(toTime, hi);
            if bs == [] || entries == 0 || fromTime >= toTime || from >= to then shares == [] && touched == 0
            else
              && (forall i :: 0 <= i < |shares| ==> IsShare(shares[i], bs[i], from, to, entries))
              && (forall i :: |shares| <= i < |bs| ==> Overlap(bs[i], from, to) == 0)
              && Sum(shares) <= entries < Sum(shares) + touched
  {
    shares, touched := [], 0;
    if entries == 0 || fromTime >= toTime || |bs| == 0 { return; }
    var from, to := Max(fromTime, bs[0].start), Min(toTime, bs[|bs|-1].end);
    if from >= to { return; }
    shares, touched := SpreadInside(bs, lo, hi, from, to, entries);
  }

  /** The first `|shares|` buckets have their shares, and `touched` of them were touched. */
  ghost predicate SpreadUpTo(bs: seq<Bucket>, lo: nat, from: nat, to: nat, entries: nat, shares: seq<nat>, touched: nat)
    requires from < to && |shares| <= |bs|
  {
    && touched <= |shares|
    && (forall k :: 0 <= k < |shares| ==> IsShare(shares[k], bs[k], from, to, entries))
    && Spread(to - from, entries, Clamp(from, to, EndOf(bs, lo, |shares|)) - from, Sum(shares), touched)
  }

  method SpreadNext(bs: seq<Bucket>, lo: nat, hi: nat, from: nat, to: nat, entries: uint64, shares: seq<nat>, touched: nat)
    returns (shares': seq<nat>, touched': nat)
    requires Tiles(bs, lo, hi) && from < to <= MAX_U64 && |shares| < |bs| && SpreadUpTo(bs, lo, from, to, entries, shares, touched)
    ensures |shares'| == |shares| + 1 && SpreadUpTo(bs, lo, from, to, entries, shares', touched')
  {
    var i := |shares|;
    TileStart(bs, lo, hi, i);
    var share;
    share, touched' := SpreadBucket(bs[i], from, to, entries, Sum(shares), touched);
    SumAppend(shares, share);
    shares' := shares + [share];
  }

  method SpreadInside(bs: seq<Bucket>, lo: nat, hi: nat, from: nat, to: nat, entries: uint64) returns (shares: seq<nat>, touched: nat)
    requires Tiles(bs, lo, hi) && lo <= from < to <= hi <= MAX_U64 && entries > 0
    ensures |shares| <= |bs| && Sum(shares) <= entries < Sum(shares) + touched && touched <= |bs|
    ensures forall i :: 0 <= i < |shares| ==> IsShare(shares[i], bs[i], from, to, entries)
    ensures forall i :: |shares| <= i < |bs| ==> Overlap(bs[i], from, to) == 0
  {
    shares, touched := [], 0;
    var i := 0;
    SpreadStarts(bs, lo, hi, from, to, entries);
    while i < |bs| && bs[i].start <= to
      invariant i == |shares| <= |bs| && SpreadUpTo(bs, lo, from, to, entries, shares, touched)
    {
      shares, touched := SpreadNext(bs, lo, hi, from, to, entries, shares, touched);
      i := i + 1;
    }
    SpreadDone(bs, lo, hi, i, from, to, entries, shares, touched);
  }

  lemma SpreadStarts(bs: seq<Bucket>, lo: nat, hi: nat, from: nat, to: nat, entries: uint64)
    requires Tiles(bs, lo, hi) && lo <= from < to
    ensures SpreadUpTo(bs, lo, from, to, entries, [], 0)
  {
  }

  lemma SpreadDone(bs: seq<Bucket>, lo: nat, hi: nat, i: nat, from: nat, to: nat, entries: uint64, shares: seq<nat>, touched: nat)
    requires Tiles(bs, lo, hi) && lo <= from < to <= hi <= MAX_U64 && entries > 0
    requires i == |shares| <= |bs| && SpreadUpTo(bs, lo, from, to, entries, shares, touched) && (i == |bs| || bs[i].start > to)
    ensures Sum(shares) <= entries < Sum(shares) + touched
    ensures forall k :: i <= k < |bs| ==> Overlap(bs[k], from, to) == 0
  {
    TileEnd(bs, lo, hi, i, to);
    NothingLeft(bs, lo, hi, i, from, to);
    SpreadEnds(to - from, entries, Sum(shares), touched);
  }

  lemma {:induction false} StartsRise(bs: seq<Bucket>, lo: nat, hi: nat, i: nat, k: nat)
    requires Tiles(bs, lo, hi) && i <= k < |bs|
    ensures bs[i].start <= bs[k].start
    decreases k - i
  {
    if i < k {
      var m := k - 1;
      StartsRise(bs, lo, hi, i, m);
      assert bs[m].end == bs[k].start;
    }
  }

  lemma NothingLeft(bs: seq<Bucket>, lo: nat, hi: nat, i: nat, from: nat, to: nat)
    requires Tiles(bs, lo, hi) && i <= |bs| && (i < |bs| ==> bs[i].start > to)
    ensures forall k :: i <= k < |bs| ==> Overlap(bs[k], from, to) == 0
  {
    forall k | i <= k < |bs| ensures Overlap(bs[k], from, to) == 0 {
      StartsRise(bs, lo, hi, i, k);
    }
  }

  /** Where the first `i` buckets end. */
  ghost function EndOf(bs: seq<Bucket>, lo: nat, i: nat): nat
    requires i <= |bs|
  {
    if i == 0 then lo else bs[i-1].end
  }

  lemma TileStart(bs: seq<Bucket>, lo: nat, hi: nat, i: nat)
    requires Tiles(bs, lo, hi) && i < |bs|
    ensures bs[i].start == EndOf(bs, lo, i)
  {
    if i > 0 {
      var p := i - 1;
      assert bs[p].end == bs[i].start;
    }
  }

  lemma TileEnd(bs: seq<Bucket>, lo: nat, hi: nat, i: nat, to: nat)
    requires Tiles(bs, lo, hi) && i <= |bs| && (i < |bs| ==> bs[i].start > to) && to <= hi
    ensures EndOf(bs, lo, i) >= to
  {
    if i < |bs| { TileStart(bs, lo, hi, i); }
  }

  /** The share of one bucket. */
  method SpreadBucket(b: Bucket, from: nat, to: nat, entries: uint64, ghost given: nat, touched: nat) returns (share: nat, touched': nat)
    requires b.start < b.end && from < to <= MAX_U64
    requires Spread(to - from, entries, Clamp(from, to, b.start) - from, given, touched)
    ensures touched <= touched' <= touched + 1 && IsShare(share, b, from, to, entries)
    ensures Spread(to - from, entries, Clamp(from, to, b.end) - from, given + share, touched')
  {
    share, touched' := 0, touched;
    if b.end <= from {
      NoShare(b, from, to, entries);
      return;
    }
    var start, end := Max(b.start, from), Min(b.end, to);
    if start >= end {
      NoShare(b, from, to, entries);
      return;
    }
    ShareExact(end - start, entries, to - from);
    share := MulDiv(end - start, entries, to - from);
    SpreadStep(to - from, entries, Clamp(from, to, b.start) - from, given, touched, end - start, share);
    touched' := touched + 1;
  }
}
