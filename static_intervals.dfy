/** The static `getShortMergeIntervals(rinfo, numthreads, check)` and
    `getLongMergeIntervals(rinfo, numthreads, check)`: the same partitioning
    as the instance one, but with split hashes searched over the sparse
    indexes only, and exact boundaries found by jumping to the sampled
    ordinal and scanning forward. The two differ only in the hash they use,
    which is the `ord` parameter here. */
module StaticMergeIntervals {
  import opened Base
  import opened ReadEndsBlocks
  import opened MergeIntervals
  import opened BlockCollection

  /** The offset array O: O[i] is the number of blocks of the files before i. */
  method OffsetArray(rinfo: seq<FileInfo>) returns (O: seq<nat>)
    ensures |O| == |rinfo|
    ensures forall i :: 0 <= i < |rinfo| ==> O[i] == NumBlocks(rinfo[..i])
  {
    O := seq(|rinfo|, _ => 0);
    var i := 1;
    while i < |rinfo|
      invariant |O| == |rinfo| && (i <= |rinfo| || |rinfo| == 0)
      invariant forall i' :: 0 <= i' < i && i' < |rinfo| ==> O[i'] == NumBlocks(rinfo[..i'])
    {
      assert rinfo[..i][..i - 1] == rinfo[..i - 1];
      O := O[i := O[i - 1] + |rinfo[i - 1].indexoffset|];
      i := i + 1;
    }
  }

  /** `getTotalShortBlocks` / `getTotalLongBlocks`: index entries over all
      blocks. */
  method TotalIndexEntries(blocks: seq<Block>, stride: nat) returns (s: nat)
    requires stride > 0
    ensures s == TotalSamples(blocks, stride)
  {
    s := 0;
    for i := 0 to |blocks|
      invariant s == TotalSamples(blocks[..i], stride)
    {
      assert blocks[..i + 1][..i] == blocks[..i];
      s := s + |Samples(blocks[i], stride)|;
    }
    assert blocks[..|blocks|] == blocks;
  }

  /** The largest hash among the last index entries of the blocks, or 0. */
  function IndexMaxKey(ord: Ordering, blocks: seq<Block>, stride: nat): nat
    requires stride > 0
  {
    if blocks == [] then 0
    else
      var m := IndexMaxKey(ord, blocks[..|blocks| - 1], stride);
      var s := Samples(blocks[|blocks| - 1], stride);
      if s != [] && m < Key(ord, Last(s)) then Key(ord, Last(s)) else m
  }

  /** IndexMaxKey bounds the hash of every block's last index entry, and is
      one of them unless it is 0. */
  lemma {:induction false} IndexMaxKeyIsMax(ord: Ordering, blocks: seq<Block>, stride: nat)
    requires stride > 0
    ensures forall j :: 0 <= j < |blocks| && Samples(blocks[j], stride) != [] ==>
              Key(ord, Last(Samples(blocks[j], stride))) <= IndexMaxKey(ord, blocks, stride)
    ensures IndexMaxKey(ord, blocks, stride) == 0 ||
            exists j :: 0 <= j < |blocks| && Samples(blocks[j], stride) != [] &&
              IndexMaxKey(ord, blocks, stride) == Key(ord, Last(Samples(blocks[j], stride)))
  {
    if blocks != [] {
      var p := blocks[..|blocks| - 1];
      var n := |blocks| - 1;
      IndexMaxKeyIsMax(ord, p, stride);
      var m := IndexMaxKey(ord, p, stride);
      var top := IndexMaxKey(ord, blocks, stride);
      forall j | 0 <= j < |blocks| && Samples(blocks[j], stride) != []
        ensures Key(ord, Last(Samples(blocks[j], stride))) <= top
      {
        if j < n {
          assert blocks[j] == p[j];
        }
      }
      if top != 0 && top == m {
        var j :| 0 <= j < |p| && Samples(p[j], stride) != [] && m == Key(ord, Last(Samples(p[j], stride)));
        assert blocks[j] == p[j];
      } else if top != 0 {
        assert top == Key(ord, Last(Samples(blocks[n], stride)));
      }
    }
  }

  /** The index accessor's `max()`: starting from a reset record, take the
      maximum entry of every non-empty index whose hash is larger, keeping
      only its hash attributes. */
  method AccessorMax(ord: Ordering, blocks: seq<Block>, stride: nat) returns (R: ReadEnds)
    requires stride > 0
    ensures Key(ord, R) == IndexMaxKey(ord, blocks, stride)
  {
    R := ZERO;
    for i := 0 to |blocks|
      invariant Key(ord, R) == IndexMaxKey(ord, blocks[..i], stride)
    {
      assert blocks[..i + 1][..i] == blocks[..i];
      var index := Samples(blocks[i], stride);
      if index != [] && Key(ord, R) < Key(ord, Last(index)) {
        R := DecodeHash(ord, Key(ord, Last(index)));
      }
    }
    assert blocks[..|blocks|] == blocks;
  }

  /** The split hashes of the index-based partitioning: lower-bound searches
      of the cache-only index count over [0, max index hash + 1) for the
      targets (i * totalbaseblocks) / T. */
  function IndexSplits(ord: Ordering, blocks: seq<Block>, stride: nat, numthreads: nat): seq<nat>
    requires stride > 0
  {
    SplitPoints(IndexOnly(ord, blocks, stride), IndexTargets(TotalSamples(blocks, stride), numthreads),
                IndexMaxKey(ord, blocks, stride) + 1)
  }

  lemma IndexSplitsOrdered(ord: Ordering, blocks: seq<Block>, stride: nat, numthreads: nat)
    requires stride > 0
    ensures NonDecreasing(IndexSplits(ord, blocks, stride, numthreads))
    ensures numthreads > 0 ==> IndexSplits(ord, blocks, stride, numthreads)[0] == 0
  {
    IndexTargetsOrdered(TotalSamples(blocks, stride), numthreads);
    SplitPointsOrdered(IndexOnly(ord, blocks, stride), IndexTargets(TotalSamples(blocks, stride), numthreads),
                       IndexMaxKey(ord, blocks, stride) + 1);
  }

  /** The exact boundary of one (worker, block) pair: look up the last index
      entry below `h`, jump to its ordinal `blockid << baseIndexShift`, then
      decode forward while records are below `h`. The first record decoded
      is the sampled one and every later one is larger than its
      predecessor, as the source asserts. */
  method ScanBoundary(ord: Ordering, blk: Block, stride: nat, h: nat) returns (o: nat)
    requires stride > 0 && Sorted(ord, blk)
    ensures o == CountLess(ord, blk, h)
  {
    var FLS := FindLargestSmaller(ord, blk, stride, h);
    ScanStart(ord, blk, stride, h);
    CountLessBoundary(ord, blk, h);
    o := FLS.blockid * stride;
    var blockelcnt := |blk|;
    var first := true;
    var prev := ZERO;
    while o < blockelcnt
      invariant o <= CountLess(ord, blk, h)
      invariant first ==> o == FLS.blockid * stride
      invariant !first ==> 0 < o <= |blk| && prev == blk[o - 1]
      decreases blockelcnt - o
    {
      // the data stream holds the record: o < blockelcnt
      var T := blk[o];
      if first {
        assert T == FLS.D;
        first := false;
      } else {
        assert Less(ord, prev, T);
      }
      if !(Key(ord, T) < h) {
        break;
      }
      o := o + 1;
      prev := T;
    }
  }

  /** Cell (i, j) of the worker-major array RR. */
  function Cell(i: nat, j: nat, numblocks: nat): nat
  {
    i * numblocks + j
  }

  lemma CellFacts(i: nat, j: nat, i': nat, j': nat, numthreads: nat, numblocks: nat)
    requires i < numthreads && i' < numthreads && j < numblocks && j' < numblocks
    ensures Cell(i, j, numblocks) < numthreads * numblocks
    ensures Cell(i, j, numblocks) == Cell(i', j', numblocks) ==> i == i' && j == j'
  {
    DigitBound(i, numthreads, numblocks, j);
    if i < i' {
      DigitBound(i, i', numblocks, j);
    } else if i' < i {
      DigitBound(i', i, numblocks, j');
    }
  }

  /** The cells of RR filled so far: every worker's boundary in blocks
      before `cur`; the others still hold the sentinel. */
  ghost predicate FilledUpTo(RR: seq<nat>, ord: Ordering, blocks: seq<Block>, splits: seq<nat>, cur: nat)
    requires |RR| == |splits| * |blocks|
  {
    forall i, j :: 0 <= i < |splits| && 0 <= j < |blocks| ==>
      CellIn(RR, i, j, |splits|, |blocks|) ==
        (if j < cur then CountLess(ord, blocks[j], splits[i]) else UINT64_MAX)
  }

  function CellIn(RR: seq<nat>, i: nat, j: nat, numthreads: nat, numblocks: nat): nat
    requires i < numthreads && j < numblocks && |RR| == numthreads * numblocks
  {
    CellFacts(i, j, i, j, numthreads, numblocks);
    RR[Cell(i, j, numblocks)]
  }

  /** The innermost loop over workers for block `cur`: each cell of the
      block still holds the sentinel when it is written, and is written
      with the exact boundary. */
  method FillBlock(ord: Ordering, blocks: seq<Block>, stride: nat, splits: seq<nat>, RR: array<nat>, cur: nat)
    requires stride > 0 && cur < |blocks| && Sorted(ord, blocks[cur])
    requires RR.Length == |splits| * |blocks|
    requires FilledUpTo(RR[..], ord, blocks, splits, cur)
    modifies RR
    ensures FilledUpTo(RR[..], ord, blocks, splits, cur + 1)
  {
    var numthreads, numblocks := |splits|, |blocks|;
    for i := 0 to numthreads
      invariant forall i', j :: 0 <= i' < numthreads && 0 <= j < numblocks ==> CellIn(RR[..], i', j, numthreads, numblocks) == (if j < cur || (j == cur && i' < i) then CountLess(ord, blocks[j], splits[i']) else UINT64_MAX)
    {
      var H := DecodeHash(ord, splits[i]);
      var o := ScanBoundary(ord, blocks[cur], stride, Key(ord, H));
      CellFacts(i, cur, i, cur, numthreads, numblocks);
      assert o == CountLess(ord, blocks[cur], splits[i]);
      var c := Cell(i, cur, numblocks);
      assert RR[c] == CellIn(RR[..], i, cur, numthreads, numblocks) == UINT64_MAX;
      ghost var before := RR[..];
      RR[c] := o;
      assert RR[..] == before[c := o];
      forall i', j | 0 <= i' < numthreads && 0 <= j < numblocks
        ensures CellIn(RR[..], i', j, numthreads, numblocks) ==
                  (if j < cur || (j == cur && i' < i + 1) then CountLess(ord, blocks[j], splits[i']) else UINT64_MAX)
      {
        CellFacts(i, cur, i', j, numthreads, numblocks);
        if i' == i && j == cur {
          assert CellIn(RR[..], i', j, numthreads, numblocks) == o;
        } else {
          CellFacts(i', j, i', j, numthreads, numblocks);
          assert Cell(i', j, numblocks) != c;
          assert CellIn(RR[..], i', j, numthreads, numblocks) == CellIn(before, i', j, numthreads, numblocks);
        }
      }
    }
  }

  /** The loops over files f and their blocks k: block k of file f is block
      O[f] + k of the collection. */
  method FillBoundaries(ord: Ordering, rinfo: seq<FileInfo>, O: seq<nat>, blocks: seq<Block>, stride: nat,
                        splits: seq<nat>, RR: array<nat>)
    requires stride > 0 && AllWellFormed(ord, rinfo) && blocks == Flatten(rinfo)
    requires |O| == |rinfo| && forall f :: 0 <= f < |rinfo| ==> O[f] == NumBlocks(rinfo[..f])
    requires RR.Length == |splits| * NumBlocks(rinfo)
    requires forall c :: 0 <= c < RR.Length ==> RR[c] == UINT64_MAX
    modifies RR
    ensures |Flatten(rinfo)| == NumBlocks(rinfo) && FilledUpTo(RR[..], ord, Flatten(rinfo), splits, NumBlocks(rinfo))
  {
    FlattenLength(ord, rinfo);
    FlattenSorted(ord, rinfo);
    forall i, j | 0 <= i < |splits| && 0 <= j < |blocks|
      ensures CellIn(RR[..], i, j, |splits|, |blocks|) == UINT64_MAX
    {
      CellFacts(i, j, i, j, |splits|, |blocks|);
    }
    for f := 0 to |rinfo|
      invariant FilledUpTo(RR[..], ord, blocks, splits, NumBlocks(rinfo[..f]))
    {
      assert rinfo[..f + 1][..f] == rinfo[..f];
      assert WellFormed(ord, rinfo[f]);
      for k := 0 to |rinfo[f].indexoffset|
        invariant FilledUpTo(RR[..], ord, blocks, splits, O[f] + k)
      {
        FlattenAt(ord, rinfo, f, k);
        FillBlock(ord, blocks, stride, splits, RR, O[f] + k);
      }
    }
    assert rinfo[..|rinfo|] == rinfo;
  }

  /** "Open indexes": the index of block j of file i goes to slot O[i] + j. */
  method OpenIndexes(ord: Ordering, rinfo: seq<FileInfo>, O: seq<nat>) returns (blocks: seq<Block>)
    requires AllWellFormed(ord, rinfo)
    requires |O| == |rinfo| && forall f :: 0 <= f < |rinfo| ==> O[f] == NumBlocks(rinfo[..f])
    ensures blocks == Flatten(rinfo)
  {
    var numblocks := ComputeNumBlocks(rinfo);
    FlattenLength(ord, rinfo);
    blocks := seq(numblocks, _ => []);
    for i := 0 to |rinfo|
      invariant |blocks| == numblocks
      invariant forall j :: 0 <= j < NumBlocks(rinfo[..i]) ==> j < numblocks && blocks[j] == Flatten(rinfo)[j]
    {
      NumBlocksPrefix(rinfo, i);
      blocks := OpenFileIndex(ord, rinfo, i, blocks);
    }
    assert rinfo[..|rinfo|] == rinfo;
  }

  /** Places the blocks of file i after those of the files before it. */
  method OpenFileIndex(ord: Ordering, rinfo: seq<FileInfo>, i: nat, blocks0: seq<Block>) returns (blocks: seq<Block>)
    requires AllWellFormed(ord, rinfo) && i < |rinfo|
    requires |blocks0| == |Flatten(rinfo)| && NumBlocks(rinfo[..i]) <= |blocks0|
    requires forall j :: 0 <= j < NumBlocks(rinfo[..i]) ==> blocks0[j] == Flatten(rinfo)[j]
    ensures |blocks| == |blocks0| && NumBlocks(rinfo[..i + 1]) <= |blocks|
    ensures forall j :: 0 <= j < NumBlocks(rinfo[..i + 1]) ==> blocks[j] == Flatten(rinfo)[j]
  {
    assert WellFormed(ord, rinfo[i]);
    NumBlocksPrefix(rinfo, i + 1);
    FlattenLength(ord, rinfo);
    assert rinfo[..i + 1][..i] == rinfo[..i];
    var o := NumBlocks(rinfo[..i]);
    assert NumBlocks(rinfo[..i + 1]) == o + |rinfo[i].indexoffset|;
    blocks := blocks0;
    for j := 0 to |rinfo[i].indexoffset|
      invariant |blocks| == |blocks0|
      invariant forall j' :: 0 <= j' < o + j ==> j' < |blocks| && blocks[j'] == Flatten(rinfo)[j']
    {
      FlattenAt(ord, rinfo, i, j);
      blocks := blocks[o + j := rinfo[i].data[j]];
    }
  }

  /** The split-point loop: split i is the lower bound of (i * total) / T
      over [0, max index hash + 1) under the cache-only count. */
  method IndexSplitPoints(ord: Ordering, blocks: seq<Block>, stride: nat, numthreads: nat) returns (splitPoints: seq<nat>)
    requires stride > 0
    ensures splitPoints == IndexSplits(ord, blocks, stride, numthreads)
  {
    var totalbaseblocks := TotalIndexEntries(blocks, stride);
    var accessor := IndexOnly(ord, blocks, stride);
    var mx := AccessorMax(ord, blocks, stride);
    var upper := Key(ord, mx) + 1;
    ghost var targets := IndexTargets(totalbaseblocks, numthreads);
    splitPoints := seq(numthreads, _ => 0);
    for i := 0 to numthreads
      invariant |splitPoints| == numthreads
      invariant forall i' :: 0 <= i' < i ==> splitPoints[i'] == FirstReaching(accessor, targets[i'], 0, upper)
    {
      var target := (i * totalbaseblocks) / numthreads;
      assert target == targets[i];
      var sp := LowerBound(accessor, 0, upper, target);
      splitPoints := splitPoints[i := sp];
    }
  }

  /** Copy the boundaries out of RR into the start of every range. */
  method StartsFromCells(ord: Ordering, blocks: seq<Block>, splits: seq<nat>, RR: array<nat>) returns (F: seq<seq<Interval>>)
    requires RR.Length == |splits| * |blocks|
    requires FilledUpTo(RR[..], ord, blocks, splits, |blocks|)
    ensures |F| == |splits| && forall i :: 0 <= i < |F| ==> |F[i]| == |blocks|
    ensures forall i, j :: 0 <= i < |F| && 0 <= j < |blocks| ==> F[i][j].first == CountLess(ord, blocks[j], splits[i])
  {
    var numthreads, numblocks := |splits|, |blocks|;
    F := seq(numthreads, _ => seq(numblocks, _ => Interval(0, 0)));
    for i := 0 to numthreads
      invariant |F| == numthreads && forall i' :: 0 <= i' < numthreads ==> |F[i']| == numblocks
      invariant forall i', j :: 0 <= i' < i && 0 <= j < numblocks ==> F[i'][j].first == CountLess(ord, blocks[j], splits[i'])
    {
      var row := F[i];
      for j := 0 to numblocks
        invariant |row| == numblocks
        invariant forall j' :: 0 <= j' < j ==> row[j'].first == CountLess(ord, blocks[j'], splits[i])
      {
        CellFacts(i, j, i, j, numthreads, numblocks);
        assert RR[i * numblocks + j] == CellIn(RR[..], i, j, numthreads, numblocks);
        row := row[j := Interval(RR[i * numblocks + j], row[j].second)];
      }
      F := F[i := row];
    }
  }

  /** The last worker's ranges end at the block sizes, walked file by file
      over `blockelcnt` with a running block number. */
  method EndByFileCounts(ord: Ordering, rinfo: seq<FileInfo>, R0: seq<seq<Interval>>) returns (R: seq<seq<Interval>>)
    requires AllWellFormed(ord, rinfo) && |R0| > 0
    requires forall i :: 0 <= i < |R0| ==> |R0[i]| == NumBlocks(rinfo)
    ensures |Flatten(rinfo)| == NumBlocks(rinfo)
    ensures |R| == |R0| && forall i :: 0 <= i < |R| ==> |R[i]| == NumBlocks(rinfo)
    ensures forall i :: 0 <= i < |R| - 1 ==> R[i] == R0[i]
    ensures forall j :: 0 <= j < NumBlocks(rinfo) ==>
              R[|R| - 1][j] == Interval(R0[|R0| - 1][j].first, |Flatten(rinfo)[j]|)
  {
    FlattenLength(ord, rinfo);
    var last := R0[|R0| - 1];
    var j := 0;
    for k := 0 to |rinfo|
      invariant j == NumBlocks(rinfo[..k]) && |last| == NumBlocks(rinfo)
      invariant forall j' :: 0 <= j' < NumBlocks(rinfo) ==> last[j'].first == R0[|R0| - 1][j'].first
      invariant forall j' :: 0 <= j' < j ==> j' < NumBlocks(rinfo) && last[j'].second == |Flatten(rinfo)[j']|
    {
      var subinfo := rinfo[k];
      assert WellFormed(ord, subinfo);
      NumBlocksPrefix(rinfo, k + 1);
      assert rinfo[..k + 1][..k] == rinfo[..k];
      for i := 0 to |subinfo.blockelcnt|
        invariant j == NumBlocks(rinfo[..k]) + i && |last| == NumBlocks(rinfo)
        invariant forall j' :: 0 <= j' < NumBlocks(rinfo) ==> last[j'].first == R0[|R0| - 1][j'].first
        invariant forall j' :: 0 <= j' < j ==> j' < NumBlocks(rinfo) && last[j'].second == |Flatten(rinfo)[j']|
      {
        FlattenAt(ord, rinfo, k, i);
        last := last[j := Interval(last[j].first, subinfo.blockelcnt[i])];
        j := j + 1;
      }
    }
    assert rinfo[..|rinfo|] == rinfo;
    R := R0[|R0| - 1 := last];
  }

  /** The static `getShortMergeIntervals(rinfo, numthreads, check)` (ord =
      Short) and `getLongMergeIntervals(rinfo, numthreads, check)` (ord =
      Long), with index entries every 2^shift records. The ranges are
      exactly those of the exact per-block counts below the split hashes
      found over the sparse indexes. */
  method GetMergeIntervals(ord: Ordering, rinfo: seq<FileInfo>, shift: nat, numthreads: nat, check: bool)
    returns (R: seq<seq<Interval>>)
    requires AllWellFormed(ord, rinfo)
    ensures R == Intervals(ord, Flatten(rinfo), IndexSplits(ord, Flatten(rinfo), Pow2(shift), numthreads))
  {
    var stride := Pow2(shift);
    var O := OffsetArray(rinfo);
    var blocks := OpenIndexes(ord, rinfo, O);
    var splitPoints := IndexSplitPoints(ord, blocks, stride, numthreads);
    IndexSplitsOrdered(ord, blocks, stride, numthreads);
    var i := 1;
    while i < |splitPoints| {
      assert splitPoints[i - 1] <= splitPoints[i];
      i := i + 1;
    }
    R := ExactRanges(ord, rinfo, O, blocks, stride, splitPoints);
    if check && numthreads > 0 {
      var col := new Collection(ord, rinfo);
      col.CheckIntervals(R, splitPoints);
    }
  }

  /** From the split hashes to the ranges: the sentinel-filled array RR of
      exact boundaries, copied into the range starts, then the upper bounds
      chained and the last worker's ends set. */
  method ExactRanges(ord: Ordering, rinfo: seq<FileInfo>, O: seq<nat>, blocks: seq<Block>, stride: nat,
                     splitPoints: seq<nat>) returns (R: seq<seq<Interval>>)
    requires stride > 0 && AllWellFormed(ord, rinfo) && blocks == Flatten(rinfo)
    requires |O| == |rinfo| && forall f :: 0 <= f < |rinfo| ==> O[f] == NumBlocks(rinfo[..f])
    ensures R == Intervals(ord, blocks, splitPoints)
  {
    var numthreads := |splitPoints|;
    var numblocks := ComputeNumBlocks(rinfo);
    FlattenLength(ord, rinfo);
    var RR := new nat[numthreads * numblocks](_ => UINT64_MAX);
    FillBoundaries(ord, rinfo, O, blocks, stride, splitPoints, RR);
    var F := StartsFromCells(ord, blocks, splitPoints, RR);
    if numthreads == 0 {
      R := [];
      return;
    }
    var C := ChainUpperBounds(F, numblocks);
    R := EndByFileCounts(ord, rinfo, C);
    ChainedIsIntervals(ord, blocks, splitPoints, F, R);
  }
}
