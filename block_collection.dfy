/** `ReadEndsBlockDecoderBaseCollection`: the sorted blocks of many files
    treated as one ordered collection, counted, bounded and cut into worker
    ranges, and merged range by range. */
module BlockCollection {
  import opened Base
  import opened ReadEndsBlocks
  import opened MergeIntervals
  import opened MergeSpec

  /** The static `computeNumBlocks(info)`: the number of index offsets over
      all files. */
  method ComputeNumBlocks(infos: seq<FileInfo>) returns (s: nat)
    ensures s == NumBlocks(infos)
  {
    s := 0;
    for i := 0 to |infos|
      invariant s == NumBlocks(infos[..i])
    {
      assert infos[..i + 1][..i] == infos[..i];
      s := s + |infos[i].indexoffset|;
    }
    assert infos[..|infos|] == infos;
  }

  /** Sum of a run of block element counts. */
  function CountSum(cnt: seq<nat>): nat
  {
    if cnt == [] then 0 else CountSum(cnt[..|cnt| - 1]) + cnt[|cnt| - 1]
  }

  /** Sum of the block element counts the infos of all files declare. */
  function ElementCount(infos: seq<FileInfo>): nat
  {
    if infos == [] then 0 else ElementCount(infos[..|infos| - 1]) + CountSum(infos[|infos| - 1].blockelcnt)
  }

  /** The static `getTotalEntries(info)`: the element counts of every block
      of every file, added up. */
  method GetTotalEntries(infos: seq<FileInfo>) returns (s: nat)
    ensures s == ElementCount(infos)
  {
    s := 0;
    for k := 0 to |infos|
      invariant s == ElementCount(infos[..k])
    {
      assert infos[..k + 1][..k] == infos[..k];
      var cnt := infos[k].blockelcnt;
      for i := 0 to |cnt|
        invariant s == ElementCount(infos[..k]) + CountSum(cnt[..i])
      {
        assert cnt[..i + 1][..i] == cnt[..i];
        s := s + cnt[i];
      }
      assert cnt[..|cnt|] == cnt;
    }
    assert infos[..|infos|] == infos;
  }

  lemma {:induction false} CountSumIsSize(cnt: seq<nat>, data: seq<Block>)
    requires |cnt| == |data| && forall k :: 0 <= k < |data| ==> |data[k]| == cnt[k]
    ensures CountSum(cnt) == TotalSize(data)
    decreases |cnt|
  {
    if cnt != [] {
      CountSumIsSize(cnt[..|cnt| - 1], data[..|data| - 1]);
    }
  }

  /** Where the infos agree with their files, the declared counts add up to
      the number of records the collection holds, what `totalEntries()`
      counts block by block. */
  lemma {:induction false} ElementCountIsSize(ord: Ordering, infos: seq<FileInfo>)
    requires AllWellFormed(ord, infos)
    ensures ElementCount(infos) == TotalSize(Flatten(infos))
    decreases |infos|
  {
    if infos != [] {
      var n := |infos| - 1;
      assert AllWellFormed(ord, infos[..n]);
      ElementCountIsSize(ord, infos[..n]);
      assert WellFormed(ord, infos[n]);
      CountSumIsSize(infos[n].blockelcnt, infos[n].data);
      TotalSizeAppend(Flatten(infos[..n]), infos[n].data);
    }
  }

  /** `std::max` under the record comparison: the second argument only when
      the first is smaller. */
  function StdMax(ord: Ordering, a: ReadEnds, b: ReadEnds): ReadEnds
  {
    if Less(ord, a, b) then b else a
  }

  function Last(blk: Block): ReadEnds
    requires blk != []
  {
    blk[|blk| - 1]
  }

  /** The `max()` fold: a default record combined with the last record of
      every non-empty block, in block order. */
  function MaxLast(ord: Ordering, blocks: seq<Block>): ReadEnds
  {
    if blocks == [] then ZERO
    else
      var m := MaxLast(ord, blocks[..|blocks| - 1]);
      var blk := blocks[|blocks| - 1];
      if blk != [] then StdMax(ord, m, Last(blk)) else m
  }

  /** The fold finds a record no last record exceeds, and it is either the
      default record or one of those last records. */
  lemma {:induction false} MaxLastIsMax(ord: Ordering, blocks: seq<Block>)
    ensures forall j :: 0 <= j < |blocks| && blocks[j] != [] ==> !Less(ord, MaxLast(ord, blocks), Last(blocks[j]))
    ensures MaxLast(ord, blocks) == ZERO ||
            exists j :: 0 <= j < |blocks| && blocks[j] != [] && MaxLast(ord, blocks) == Last(blocks[j])
  {
    if blocks != [] {
      var p := blocks[..|blocks| - 1];
      MaxLastIsMax(ord, p);
      var m := MaxLast(ord, p);
      var blk := blocks[|blocks| - 1];
      forall j | 0 <= j < |blocks| && blocks[j] != []
        ensures !Less(ord, MaxLast(ord, blocks), Last(blocks[j]))
      {
        if j < |p| {
          assert blocks[j] == p[j];
        }
      }
      if MaxLast(ord, p) != ZERO && MaxLast(ord, blocks) == m {
        var j :| 0 <= j < |p| && p[j] != [] && m == Last(p[j]);
        assert blocks[j] == p[j];
      }
    }
  }

  /** Every record of a collection of sorted blocks has a hash below the
      upper bound `hash(max()) + 1`. */
  lemma UpperBoundAbove(ord: Ordering, blocks: seq<Block>)
    requires forall j :: 0 <= j < |blocks| ==> Sorted(ord, blocks[j])
    ensures forall j, i :: 0 <= j < |blocks| && 0 <= i < |blocks[j]| ==>
              Key(ord, blocks[j][i]) < Key(ord, MaxLast(ord, blocks)) + 1
  {
    MaxLastIsMax(ord, blocks);
    forall j, i | 0 <= j < |blocks| && 0 <= i < |blocks[j]|
      ensures Key(ord, blocks[j][i]) < Key(ord, MaxLast(ord, blocks)) + 1
    {
      KeyOrdered(ord, blocks[j], i, |blocks[j]| - 1);
      assert !Less(ord, MaxLast(ord, blocks), Last(blocks[j]));
    }
  }

  /** The split hashes of the instance partitioning: lower-bound searches
      over [0, hashUpperBoundShort()) for the targets i * (total / T). */
  function InstanceSplits(ord: Ordering, blocks: seq<Block>, numthreads: nat): seq<nat>
    requires numthreads > 0
  {
    SplitPoints(Exact(Short, blocks), InstanceTargets(TotalSize(blocks), numthreads),
                Key(Short, MaxLast(ord, blocks)) + 1)
  }

  /** The instance split hashes never decrease and the first is hash 0. */
  lemma InstanceSplitsOrdered(ord: Ordering, blocks: seq<Block>, numthreads: nat)
    requires numthreads > 0
    ensures NonDecreasing(InstanceSplits(ord, blocks, numthreads))
    ensures InstanceSplits(ord, blocks, numthreads)[0] == 0
  {
    InstanceTargetsOrdered(TotalSize(blocks), numthreads);
    SplitPointsOrdered(Exact(Short, blocks), InstanceTargets(TotalSize(blocks), numthreads),
                       Key(Short, MaxLast(ord, blocks)) + 1);
  }

  /** "Set upper bounds": every range but the last worker's ends where the
      next worker's range of the same block starts. */
  method ChainUpperBounds(R0: seq<seq<Interval>>, numblocks: nat) returns (R: seq<seq<Interval>>)
    requires forall i :: 0 <= i < |R0| ==> |R0[i]| == numblocks
    ensures |R| == |R0| && forall i :: 0 <= i < |R| ==> |R[i]| == numblocks
    ensures forall i, j :: 0 <= i < |R| - 1 && 0 <= j < numblocks ==>
              R[i][j] == Interval(R0[i][j].first, R0[i + 1][j].first)
    ensures |R| > 0 ==> R[|R| - 1] == R0[|R0| - 1]
  {
    R := R0;
    var i := 0;
    while i + 1 < |R0|
      invariant i == 0 || i < |R0|
      invariant |R| == |R0| && forall i' :: 0 <= i' < |R| ==> |R[i']| == numblocks
      invariant forall i' :: i <= i' < |R| ==> R[i'] == R0[i']
      invariant forall i', j :: 0 <= i' < i && 0 <= j < numblocks ==> R[i'][j] == Interval(R0[i'][j].first, R0[i' + 1][j].first)
    {
      var row := R[i];
      for j := 0 to numblocks
        invariant |row| == numblocks
        invariant forall j' :: j <= j' < numblocks ==> row[j'] == R0[i][j']
        invariant forall j' :: 0 <= j' < j ==> row[j'] == Interval(R0[i][j'].first, R[i + 1][j'].first)
      {
        row := row[j := Interval(row[j].first, R[i + 1][j].first)];
      }
      R := R[i := row];
      i := i + 1;
    }
  }

  class Collection {
    /** The ordering the files were sorted by. */
    const ord: Ordering
    const info: seq<FileInfo>
    const numblocks: nat
    /** One block decoder per block, numbered file-major; a decoder is
        modelled by the records it decodes. */
    const decoders: array<Block>

    ghost predicate Valid()
      reads this, decoders
    {
      AllWellFormed(ord, info) &&
      numblocks == NumBlocks(info) &&
      decoders.Length == numblocks &&
      decoders[..] == Flatten(info)
    }

    /** Opens one decoder per block: file k's block i goes to slot j, with j
        counting up from 0 across all files. */
    constructor(ord: Ordering, rinfo: seq<FileInfo>)
      requires AllWellFormed(ord, rinfo)
      ensures Valid() && this.ord == ord && info == rinfo
    {
      this.ord := ord;
      info := rinfo;
      var n := ComputeNumBlocks(rinfo);
      numblocks := n;
      FlattenLength(ord, rinfo);
      var a := new Block[n](_ => []);
      var j := 0;
      for k := 0 to |rinfo|
        invariant j == NumBlocks(rinfo[..k]) && j <= n
        invariant a[..j] == Flatten(rinfo[..k])
      {
        assert rinfo[..k + 1][..k] == rinfo[..k];
        assert WellFormed(ord, rinfo[k]);
        NumBlocksPrefix(rinfo, k + 1);
        j := CopyBlocks(a, j, rinfo[k].data);
      }
      assert rinfo[..|rinfo|] == rinfo;
      assert a[..] == a[..j];
      decoders := a;
    }

    /** The constructor's inner loop: the blocks of one file go to the
        slots from j on. */
    static method CopyBlocks(a: array<Block>, j: nat, data: seq<Block>) returns (j': nat)
      requires j + |data| <= a.Length
      modifies a
      ensures j' == j + |data|
      ensures a[..j'] == old(a[..j]) + data
    {
      j' := j;
      for i := 0 to |data|
        invariant j' == j + i
        invariant a[..j'] == old(a[..j]) + data[..i]
      {
        a[j'] := data[i];
        assert a[..j' + 1] == a[..j'] + [a[j']];
        assert data[..i + 1] == data[..i] + [data[i]];
        j' := j' + 1;
      }
      assert data[..|data|] == data;
    }

    /** `totalEntries()`: the sum of the block sizes. */
    method TotalEntries() returns (sum: nat)
      requires Valid()
      ensures sum == TotalSize(decoders[..])
    {
      sum := 0;
      for i := 0 to numblocks
        invariant sum == TotalSize(decoders[..i])
      {
        assert decoders[..i + 1][..i] == decoders[..i];
        sum := sum + |decoders[i]|;
      }
      assert decoders[..numblocks] == decoders[..];
    }

    /** `max()`: the largest last record of the non-empty blocks, starting
        from a default record. */
    method Max() returns (re: ReadEnds)
      requires Valid()
      ensures re == MaxLast(ord, decoders[..])
    {
      re := ZERO;
      for i := 0 to numblocks
        invariant re == MaxLast(ord, decoders[..i])
      {
        assert decoders[..i + 1][..i] == decoders[..i];
        if |decoders[i]| > 0 {
          re := StdMax(ord, re, decoders[i][|decoders[i]| - 1]);
        }
      }
      assert decoders[..numblocks] == decoders[..];
    }

    /** `countSmallerThanShort/Long(A)`: the sum over blocks of each block's
        count of records whose hash is below A's. */
    method CountSmallerThan(o: Ordering, A: ReadEnds) returns (sum: nat)
      requires Valid()
      ensures sum == CountAll(o, decoders[..], Key(o, A))
    {
      sum := 0;
      for i := 0 to numblocks
        invariant sum == CountAll(o, decoders[..i], Key(o, A))
      {
        assert decoders[..i + 1][..i] == decoders[..i];
        sum := sum + CountLess(o, decoders[i], Key(o, A));
      }
      assert decoders[..numblocks] == decoders[..];
    }

    /** The hash overloads: decode the hash into a record, then count. */
    method CountSmallerThanHash(o: Ordering, h: nat) returns (sum: nat)
      requires Valid()
      ensures sum == CountAll(o, decoders[..], h)
    {
      var B := DecodeHash(o, h);
      sum := CountSmallerThan(o, B);
    }

    /** `hashUpperBoundShort/Long()`: one past the hash of `max()`. For the
        collection's own ordering it lies above every record's hash. */
    method HashUpperBound(o: Ordering) returns (r: nat)
      requires Valid()
      ensures r == Key(o, MaxLast(ord, decoders[..])) + 1
      ensures o == ord ==> forall j, i :: 0 <= j < numblocks && 0 <= i < |decoders[j]| ==> Key(o, decoders[j][i]) < r
    {
      var m := Max();
      r := Key(o, m) + 1;
      FlattenSorted(ord, info);
      UpperBoundAbove(ord, decoders[..]);
    }

    /** The instance `getShortMergeIntervals(numthreads, check)`. Split i is
        the first hash whose count reaches i * (total / numthreads); range
        (i, j) runs from block j's count below split i to its count below
        split i + 1, or to the block's end for the last worker. In check
        mode every record of every range is asserted to lie between its
        worker's splits. */
    method GetShortMergeIntervals(numthreads: nat, check: bool) returns (R: seq<seq<Interval>>)
      requires Valid() && numthreads > 0
      requires check ==> ord == Short
      ensures R == Intervals(Short, decoders[..], InstanceSplits(ord, decoders[..], numthreads))
    {
      var splitPoints;
      R, splitPoints := ComputeIntervals(numthreads);
      if check {
        InstanceSplitsOrdered(ord, decoders[..], numthreads);
        CheckIntervals(R, splitPoints);
      }
    }

    /** Everything of the instance partitioning but the check. */
    method ComputeIntervals(numthreads: nat) returns (R: seq<seq<Interval>>, splitPoints: seq<nat>)
      requires Valid() && numthreads > 0
      ensures splitPoints == InstanceSplits(ord, decoders[..], numthreads)
      ensures R == Intervals(Short, decoders[..], splitPoints)
    {
      ghost var blocks := decoders[..];
      ghost var splits := InstanceSplits(ord, blocks, numthreads);
      var totalentries := TotalEntries();
      var targetfrac := totalentries / numthreads;
      var upper := HashUpperBound(Short);
      var F;
      F, splitPoints := StartPoints(numthreads, targetfrac, upper);
      forall i | 0 <= i < numthreads
        ensures splitPoints[i] == splits[i]
      {
        assert InstanceTargets(totalentries, numthreads)[i] == i * targetfrac;
      }
      var C := ChainUpperBounds(F, numblocks);
      R := EndLastRow(C);
      ChainedIsIntervals(Short, blocks, splits, F, R);
    }

    /** The first loop of the instance partitioning: split i is the lower
        bound of i * targetfrac over [0, upper), and every block's range for
        worker i starts at the block's count below it. */
    method StartPoints(numthreads: nat, targetfrac: nat, upper: nat) returns (R: seq<seq<Interval>>, splitPoints: seq<nat>)
      requires Valid()
      ensures |R| == numthreads && |splitPoints| == numthreads
      ensures forall i :: 0 <= i < numthreads ==>
                splitPoints[i] == FirstReaching(Exact(Short, decoders[..]), i * targetfrac, 0, upper)
      ensures forall i :: 0 <= i < numthreads ==> |R[i]| == numblocks
      ensures forall i, j :: 0 <= i < numthreads && 0 <= j < numblocks ==>
                R[i][j].first == CountLess(Short, decoders[j], splitPoints[i])
    {
      R := seq(numthreads, _ => seq(numblocks, _ => Interval(0, 0)));
      splitPoints := seq(numthreads, _ => 0);
      for i := 0 to numthreads
        invariant |R| == numthreads && |splitPoints| == numthreads
        invariant forall i' :: 0 <= i' < numthreads ==> |R[i']| == numblocks
        invariant forall i' :: 0 <= i' < i ==> splitPoints[i'] == FirstReaching(Exact(Short, decoders[..]), i' * targetfrac, 0, upper)
        invariant forall i', j :: 0 <= i' < i && 0 <= j < numblocks ==> R[i'][j].first == CountLess(Short, decoders[j], splitPoints[i'])
      {
        var sp := LowerBound(Exact(Short, decoders[..]), 0, upper, i * targetfrac);
        splitPoints := splitPoints[i := sp];
        var RA := DecodeHash(Short, sp);
        var row := R[i];
        for j := 0 to numblocks
          invariant |row| == numblocks
          invariant forall j' :: 0 <= j' < j ==> row[j'].first == CountLess(Short, decoders[j'], sp)
        {
          row := row[j := Interval(CountLess(Short, decoders[j], Key(Short, RA)), row[j].second)];
        }
        R := R[i := row];
      }
    }

    /** The last worker's ranges end at the size of their blocks. */
    method EndLastRow(R0: seq<seq<Interval>>) returns (R: seq<seq<Interval>>)
      requires Valid() && |R0| > 0
      requires forall i :: 0 <= i < |R0| ==> |R0[i]| == numblocks
      ensures |R| == |R0| && forall i :: 0 <= i < |R| ==> |R[i]| == numblocks
      ensures forall i :: 0 <= i < |R| - 1 ==> R[i] == R0[i]
      ensures forall j :: 0 <= j < numblocks ==>
                R[|R| - 1][j] == Interval(R0[|R0| - 1][j].first, |decoders[j]|)
    {
      var row := R0[|R0| - 1];
      for j := 0 to numblocks
        invariant |row| == numblocks
        invariant forall j' :: 0 <= j' < numblocks ==> row[j'].first == R0[|R0| - 1][j'].first
        invariant forall j' :: 0 <= j' < j ==> row[j'].second == |decoders[j']|
      {
        row := row[j := Interval(row[j].first, |decoders[j]|)];
      }
      R := R0[|R0| - 1 := row];
    }

    /** The check-mode scan: reads every record of every range back and
        asserts it lies between its worker's split hashes. */
    method CheckIntervals(R: seq<seq<Interval>>, splitPoints: seq<nat>)
      requires Valid()
      requires |splitPoints| > 0 && NonDecreasing(splitPoints)
      requires R == Intervals(ord, decoders[..], splitPoints)
      ensures forall i, j, k :: 0 <= i < |R| && 0 <= j < decoders.Length && R[i][j].first <= k < R[i][j].second ==>
                splitPoints[i] <= Key(ord, decoders[j][k]) && (i + 1 < |R| ==> Key(ord, decoders[j][k]) < splitPoints[i + 1])
    {
      FlattenSorted(ord, info);
      IntervalsTile(ord, decoders[..], splitPoints);
      IntervalsMembership(ord, decoders[..], splitPoints);
      assert forall j :: 0 <= j < decoders.Length ==> decoders[..][j] == decoders[j];
      var numthreads := |R|;
      for i := 0 to numthreads - 1 {
        var splitlow, splithigh := splitPoints[i], splitPoints[i + 1];
        for j := 0 to numblocks {
          var ind := R[i][j];
          var k := ind.first;
          while k < ind.second
            decreases ind.second - k
          {
            assert Key(ord, decoders[j][k]) >= splitlow;
            assert Key(ord, decoders[j][k]) < splithigh;
            k := k + 1;
          }
        }
      }
      var splitlow := splitPoints[numthreads - 1];
      for j := 0 to numblocks {
        var ind := R[numthreads - 1][j];
        var k := ind.first;
        while k < ind.second
          decreases ind.second - k
        {
          assert Key(ord, decoders[j][k]) >= splitlow;
          k := k + 1;
        }
      }
    }
  
    /** `merge(V, out, indexout)`: a heap merge of range V[i] of block i
        for every i. Every record of the ranges is written exactly once, in
        ascending order, and every 2^shift-th record is also written to
        the index with its ordinal. */
    method Merge(V0: seq<Interval>, shift: nat) returns (out: seq<ReadEnds>, index: seq<Entry>)
      requires Valid() && RangesFit(decoders[..], V0)
      ensures multiset(out) == Pending(decoders[..], V0, |V0|)
      ensures |out| == PendingCount(V0, |V0|)
      ensures Ascending(ord, out)
      ensures index == IndexEntries(out, Pow2(shift))
    {
      ghost var blocks := decoders[..];
      var V, Q := OpenRanges(V0);
      var stride := Pow2(shift);
      var ind := 0;
      out, index := [], [];
      while |Q| > 0
        invariant MergeState(ord, blocks, V0, V, Q, out, |V|)
        invariant ind == |out| && index == IndexEntries(out, stride)
        decreases |Q| + PendingCount(V, |V|)
      {
        var P;
        V, Q, P := PopAndRefill(V0, V, Q, out);
        IndexEntriesAppend(out, P.1, stride);
        out := out + [P.1];
        if ind % stride == 0 {
          index := index + [(ind, P.1)];
        }
        ind := ind + 1;
      }
      StateEnd(ord, blocks, V0, V, out);
      PendingSize(blocks, V0, |V0|);
    }

    /** One round of the heap loop of `merge`: pop the smallest entry
        and, if its range has records left, push the range's next one. */
    method PopAndRefill(ghost V0: seq<Interval>, V: seq<Interval>, Q: seq<Entry>, ghost out: seq<ReadEnds>)
      returns (V': seq<Interval>, Q': seq<Entry>, P: Entry)
      requires Valid() && MergeState(ord, decoders[..], V0, V, Q, out, |V|) && |Q| > 0
      ensures MergeState(ord, decoders[..], V0, V', Q', out + [P.1], |V'|)
      ensures |Q'| + PendingCount(V', |V'|) < |Q| + PendingCount(V, |V|)
    {
      ghost var blocks := decoders[..];
      var t := MinIndex(ord, Q);
      P := Q[t];
      var b := P.0;
      if V[b].first < V[b].second {
        PopRefill(ord, blocks, V0, V, Q, out, t, b);
        PendingCountStep(V, b, |V|);
        Q' := (Q[..t] + Q[t + 1..]) + [(b, decoders[b][V[b].first])];
        V' := V[b := Interval(V[b].first + 1, V[b].second)];
      } else {
        PopOnly(ord, blocks, V0, V, Q, out, t);
        Q' := Q[..t] + Q[t + 1..];
        V' := V;
      }
    }

    /** The first loop of `merge`: the first record of every non-empty
        range goes into the heap. */
    method OpenRanges(V0: seq<Interval>) returns (V: seq<Interval>, Q: seq<Entry>)
      requires Valid() && RangesFit(decoders[..], V0)
      ensures MergeState(ord, decoders[..], V0, V, Q, [], |V|)
    {
      ghost var blocks := decoders[..];
      FlattenSorted(ord, info);
      V := V0;
      Q := [];
      StateStart(ord, blocks, V0);
      for i := 0 to |V|
        invariant MergeState(ord, blocks, V0, V, Q, [], i)
      {
        if V[i].first < V[i].second {
          OpenPush(ord, blocks, V0, V, Q, i);
          Q := Q + [(i, decoders[i][V[i].first])];
          V := V[i := Interval(V[i].first + 1, V[i].second)];
        } else {
          OpenSkip(ord, blocks, V0, V, Q, i);
        }
      }
    }
  }
}
