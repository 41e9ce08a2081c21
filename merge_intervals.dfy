/** How the merge engine cuts the blocks of a collection into per-worker
    ranges: split hashes found by a lower-bound search over the hash space,
    and for every (worker, block) pair the half-open range of records whose
    hash falls between the worker's split and the next one. */
module MergeIntervals {
  import opened Base
  import opened ReadEndsBlocks

  /** What the hash-space iterator dereferences to. `Exact` is the
      collection's count of records below a hash; `IndexOnly` is the sum of
      the sparse indexes' `findLargestSmaller` entry numbers. */
  datatype Accessor =
    | Exact(ord: Ordering, blocks: seq<Block>)
    | IndexOnly(ord: Ordering, blocks: seq<Block>, stride: nat)

  predicate ValidAccessor(a: Accessor)
  {
    a.IndexOnly? ==> a.stride > 0
  }

  function Get(a: Accessor, h: nat): nat
    requires ValidAccessor(a)
  {
    match a
    case Exact(ord, blocks) => CountAll(ord, blocks, h)
    case IndexOnly(ord, blocks, stride) => IndexCount(ord, blocks, stride, h)
  }

  /** Both accessors count more as the hash grows, which is what makes the
      binary search over the hash space sound. */
  lemma GetMonotone(a: Accessor, h1: nat, h2: nat)
    requires ValidAccessor(a) && h1 <= h2
    ensures Get(a, h1) <= Get(a, h2)
  {
    match a
    case Exact(ord, blocks) => CountAllMonotone(ord, blocks, h1, h2);
    case IndexOnly(ord, blocks, stride) => IndexCountMonotone(ord, blocks, stride, h1, h2);
  }

  /** The reference search: the first hash of [lo, hi) whose count reaches
      `target`, or `hi` when none does. */
  function FirstReaching(a: Accessor, target: nat, lo: nat, hi: nat): (r: nat)
    requires ValidAccessor(a) && lo <= hi
    ensures lo <= r <= hi
    ensures forall h :: lo <= h < r ==> Get(a, h) < target
    ensures r < hi ==> Get(a, r) >= target
    decreases hi - lo
  {
    if lo == hi then hi
    else if Get(a, lo) >= target then lo
    else FirstReaching(a, target, lo + 1, hi)
  }

  /** Any position with the two properties of FirstReaching is FirstReaching. */
  lemma FirstReachingUnique(a: Accessor, target: nat, lo: nat, hi: nat, r: nat)
    requires ValidAccessor(a) && lo <= r <= hi
    requires forall h :: lo <= h < r ==> Get(a, h) < target
    requires r < hi ==> Get(a, r) >= target
    ensures r == FirstReaching(a, target, lo, hi)
  {
    var q := FirstReaching(a, target, lo, hi);
  }

  /** A larger target is reached no earlier. */
  lemma FirstReachingMonotone(a: Accessor, t1: nat, t2: nat, lo: nat, hi: nat)
    requires ValidAccessor(a) && lo <= hi && t1 <= t2
    ensures FirstReaching(a, t1, lo, hi) <= FirstReaching(a, t2, lo, hi)
  {
    var r1, r2 := FirstReaching(a, t1, lo, hi), FirstReaching(a, t2, lo, hi);
  }

  /** `std::lower_bound(first, last, value)` over the hash iterator: the
      libstdc++ halving loop, comparing `*it < value`. */
  method LowerBound(a: Accessor, lo: nat, hi: nat, value: nat) returns (r: nat)
    requires ValidAccessor(a) && lo <= hi
    ensures r == FirstReaching(a, value, lo, hi)
  {
    var first: nat := lo;
    var count: nat := hi - lo;
    while count > 0
      invariant lo <= first && first + count <= hi
      invariant forall h :: lo <= h < first ==> Get(a, h) < value
      invariant first + count < hi ==> Get(a, first + count) >= value
      decreases count
    {
      var step := count / 2;
      var it := first + step;
      if Get(a, it) < value {
        forall h | first <= h <= it
          ensures Get(a, h) < value
        {
          GetMonotone(a, h, it);
        }
        first := it + 1;
        count := count - (step + 1);
      } else {
        count := step;
      }
    }
    FirstReachingUnique(a, value, lo, hi, first);
    r := first;
  }

  /** One split hash per target: the search result for each. */
  function SplitPoints(a: Accessor, targets: seq<nat>, hi: nat): (s: seq<nat>)
    requires ValidAccessor(a)
    ensures |s| == |targets|
  {
    seq(|targets|, i requires 0 <= i < |targets| => FirstReaching(a, targets[i], 0, hi))
  }

  predicate NonDecreasing(s: seq<nat>)
  {
    forall i, j :: 0 <= i <= j < |s| ==> s[i] <= s[j]
  }

  /** Non-decreasing targets give non-decreasing split hashes, and the first
      split of a zero target is hash 0. */
  lemma SplitPointsOrdered(a: Accessor, targets: seq<nat>, hi: nat)
    requires ValidAccessor(a) && NonDecreasing(targets)
    ensures NonDecreasing(SplitPoints(a, targets, hi))
    ensures |targets| > 0 && targets[0] == 0 ==> SplitPoints(a, targets, hi)[0] == 0
  {
    var s := SplitPoints(a, targets, hi);
    forall i, j | 0 <= i <= j < |s|
      ensures s[i] <= s[j]
    {
      FirstReachingMonotone(a, targets[i], targets[j], 0, hi);
    }
  }

  /** The instance partitioning's targets: worker i aims at i * (total / T)
      records below its split. */
  function InstanceTargets(total: nat, numthreads: nat): (t: seq<nat>)
    requires numthreads > 0
    ensures |t| == numthreads && t[0] == 0
  {
    seq(numthreads, i requires 0 <= i < numthreads => i * (total / numthreads))
  }

  /** The index-based partitioning's targets: worker i aims at
      (i * total) / T index entries below its split. */
  function IndexTargets(total: nat, numthreads: nat): (t: seq<nat>)
    ensures |t| == numthreads && (numthreads > 0 ==> t[0] == 0)
  {
    seq(numthreads, i requires 0 <= i < numthreads => (i * total) / numthreads)
  }

  lemma InstanceTargetsOrdered(total: nat, numthreads: nat)
    requires numthreads > 0
    ensures NonDecreasing(InstanceTargets(total, numthreads))
  {
    var t := InstanceTargets(total, numthreads);
    forall i, j | 0 <= i <= j < |t|
      ensures t[i] <= t[j]
    {
      MulLe(i, j, total / numthreads);
    }
  }

  lemma IndexTargetsOrdered(total: nat, numthreads: nat)
    ensures NonDecreasing(IndexTargets(total, numthreads))
  {
    var t := IndexTargets(total, numthreads);
    forall i, j | 0 <= i <= j < |t|
      ensures t[i] <= t[j]
    {
      MulLe(i, j, total);
      DivMonotone(i * total, j * total, numthreads);
    }
  }

  lemma DivMonotone(x: nat, y: nat, d: nat)
    requires x <= y && d > 0
    ensures x / d <= y / d
  {
    DivMod(x, d);
    DivMod(y, d);
    if y / d < x / d {
      MulLe(y / d + 1, x / d, d);
    }
  }

  // ---------------------------------------------------------------------
  // The ranges

  /** One worker's part of one block: ordinals [first, second). */
  datatype Interval = Interval(first: nat, second: nat)

  /** The ranges both partitioning variants compute: worker i starts block
      j at the number of its records below split i and ends where worker
      i + 1 starts; the last worker ends at the block's size. */
  function Intervals(ord: Ordering, blocks: seq<Block>, splits: seq<nat>): (R: seq<seq<Interval>>)
    ensures |R| == |splits| && forall i :: 0 <= i < |R| ==> |R[i]| == |blocks|
  {
    seq(|splits|, i requires 0 <= i < |splits| =>
      seq(|blocks|, j requires 0 <= j < |blocks| =>
        Interval(CountLess(ord, blocks[j], splits[i]),
                 if i + 1 < |splits| then CountLess(ord, blocks[j], splits[i + 1]) else |blocks[j]|)))
  }

  /** The ranges of a block chain into one another and end at the block's
      size; with non-decreasing splits no range is reversed. */
  lemma IntervalsTile(ord: Ordering, blocks: seq<Block>, splits: seq<nat>)
    requires NonDecreasing(splits)
    ensures var R := Intervals(ord, blocks, splits);
            (forall i, j :: 0 <= i < |R| - 1 && 0 <= j < |blocks| ==> R[i][j].second == R[i + 1][j].first) &&
            (forall j :: 0 <= j < |blocks| && |R| > 0 ==> R[|R| - 1][j].second == |blocks[j]|) &&
            (forall i, j :: 0 <= i < |R| && 0 <= j < |blocks| ==> R[i][j].first <= R[i][j].second <= |blocks[j]|)
  {
    var R: seq<seq<Interval>> := Intervals(ord, blocks, splits);
    forall i: int, j: int | 0 <= i < |R| && 0 <= j < |blocks|
      ensures R[i][j].first <= R[i][j].second
    {
      if i + 1 < |R| {
        CountLessMonotone(ord, blocks[j], splits[i], splits[i + 1]);
      }
    }
  }

  /** Worker i's range of block j only holds records with hash in
      [splits[i], splits[i + 1]), or at least splits[i] for the last worker:
      what the check mode asserts. */
  lemma IntervalsMembership(ord: Ordering, blocks: seq<Block>, splits: seq<nat>)
    requires forall j :: 0 <= j < |blocks| ==> Sorted(ord, blocks[j])
    ensures var R := Intervals(ord, blocks, splits);
            forall i, j, k :: 0 <= i < |R| && 0 <= j < |blocks| && R[i][j].first <= k < R[i][j].second ==>
              splits[i] <= Key(ord, blocks[j][k]) &&
              (i + 1 < |splits| ==> Key(ord, blocks[j][k]) < splits[i + 1])
  {
    var R: seq<seq<Interval>> := Intervals(ord, blocks, splits);
    forall i: int, j: int, k: int | 0 <= i < |R| && 0 <= j < |blocks| && R[i][j].first <= k < R[i][j].second
      ensures splits[i] <= Key(ord, blocks[j][k])
      ensures i + 1 < |splits| ==> Key(ord, blocks[j][k]) < splits[i + 1]
    {
      CountLessBoundary(ord, blocks[j], splits[i]);
      if i + 1 < |splits| {
        CountLessBoundary(ord, blocks[j], splits[i + 1]);
      }
    }
  }

  /** Ranges built the way both variants build them (starts from the
      counts below each split, each end the next worker's start, the last
      worker's ends the block sizes) are Intervals. */
  lemma ChainedIsIntervals(ord: Ordering, blocks: seq<Block>, splits: seq<nat>,
                           F: seq<seq<Interval>>, R: seq<seq<Interval>>)
    requires |F| == |splits| == |R| > 0
    requires forall i :: 0 <= i < |R| ==> |F[i]| == |blocks| && |R[i]| == |blocks|
    requires forall i, j :: 0 <= i < |F| && 0 <= j < |blocks| ==> F[i][j].first == CountLess(ord, blocks[j], splits[i])
    requires forall i, j :: 0 <= i < |R| - 1 && 0 <= j < |blocks| ==> R[i][j] == Interval(F[i][j].first, F[i + 1][j].first)
    requires forall j :: 0 <= j < |blocks| ==> R[|R| - 1][j] == Interval(F[|F| - 1][j].first, |blocks[j]|)
    ensures R == Intervals(ord, blocks, splits)
  {
    var spec := Intervals(ord, blocks, splits);
    forall i | 0 <= i < |R|
      ensures R[i] == spec[i]
    {
      assert forall j :: 0 <= j < |blocks| ==> R[i][j] == spec[i][j];
    }
  }

  /** Sum over workers of the lengths of their ranges of block j. */
  function RangeTotal(R: seq<seq<Interval>>, j: nat): nat
    requires forall i :: 0 <= i < |R| ==> j < |R[i]| && R[i][j].first <= R[i][j].second
  {
    if R == [] then 0
    else RangeTotal(R[..|R| - 1], j) + (R[|R| - 1][j].second - R[|R| - 1][j].first)
  }

  /** Chained ranges telescope: together they span from the first worker's
      start to the last worker's end. */
  lemma {:induction false} RangeTotalTelescopes(R: seq<seq<Interval>>, j: nat)
    requires |R| > 0
    requires forall i :: 0 <= i < |R| ==> j < |R[i]| && R[i][j].first <= R[i][j].second
    requires forall i :: 0 <= i < |R| - 1 ==> R[i][j].second == R[i + 1][j].first
    ensures RangeTotal(R, j) == R[|R| - 1][j].second - R[0][j].first
  {
    if |R| > 1 {
      RangeTotalTelescopes(R[..|R| - 1], j);
    }
  }

  /** With the first split at hash 0 the workers' ranges of every block add
      up to the whole block: no record is lost or merged twice. */
  lemma IntervalsCover(ord: Ordering, blocks: seq<Block>, splits: seq<nat>)
    requires NonDecreasing(splits) && |splits| > 0 && splits[0] == 0
    ensures var R := Intervals(ord, blocks, splits);
            forall j :: 0 <= j < |blocks| ==>
              (forall i :: 0 <= i < |R| ==> R[i][j].first <= R[i][j].second) &&
              RangeTotal(R, j) == |blocks[j]|
  {
    var R: seq<seq<Interval>> := Intervals(ord, blocks, splits);
    IntervalsTile(ord, blocks, splits);
    forall j | 0 <= j < |blocks|
      ensures (forall i :: 0 <= i < |R| ==> R[i][j].first <= R[i][j].second) && RangeTotal(R, j) == |blocks[j]|
    {
      RangeTotalTelescopes(R, j);
    }
  }
}
