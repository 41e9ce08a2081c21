/** Sorted blocks of duplicate-marking records (`ReadEnds`), the per-block
    counts the merge engine is built on, and the sparse index that samples
    every block at a fixed stride. */
module ReadEndsBlocks {
  import opened Base

  /** The hash a collection is ordered by: the short hash of fragment files
      or the long hash of pair files. */
  datatype Ordering = Short | Long

  /** A record, reduced to what ordering sees: its two hash keys and a rank
      standing for the remaining fields of the full comparison. */
  datatype ReadEnds = ReadEnds(shortHash: nat, longHash: nat, tie: nat)

  /** A default-constructed (or reset) record. */
  const ZERO: ReadEnds := ReadEnds(0, 0, 0)

  type Block = seq<ReadEnds>

  function Key(ord: Ordering, r: ReadEnds): nat
  {
    match ord
    case Short => r.shortHash
    case Long => r.longHash
  }

  /** The record `encodeShortHash`/`encodeLongHash` inverts: its hash is `h`
      and its other fields are at their defaults. */
  function DecodeHash(ord: Ordering, h: nat): (r: ReadEnds)
    ensures Key(ord, r) == h
  {
    match ord
    case Short => ReadEnds(h, 0, 0)
    case Long => ReadEnds(0, h, 0)
  }

  /** The full record comparison: the hash attributes first, then the rest. */
  predicate Less(ord: Ordering, a: ReadEnds, b: ReadEnds)
  {
    Key(ord, a) < Key(ord, b) || (Key(ord, a) == Key(ord, b) && a.tie < b.tie)
  }

  /** A block as the sorter writes it: strictly increasing. */
  predicate Sorted(ord: Ordering, blk: Block)
  {
    forall i, j :: 0 <= i < j < |blk| ==> Less(ord, blk[i], blk[j])
  }

  /** Number of records of `blk` whose hash is below `h` (a block decoder's
      `countSmallerThanShort/Long`). */
  function CountLess(ord: Ordering, blk: Block, h: nat): (c: nat)
    ensures c <= |blk|
    ensures h == 0 ==> c == 0
  {
    if blk == [] then 0
    else CountLess(ord, blk[..|blk| - 1], h) + (if Key(ord, blk[|blk| - 1]) < h then 1 else 0)
  }

  /** In a sorted block the records below `h` are exactly a prefix, and
      CountLess is its length. */
  lemma {:induction false} CountLessBoundary(ord: Ordering, blk: Block, h: nat)
    requires Sorted(ord, blk)
    ensures forall i :: 0 <= i < |blk| ==> (i < CountLess(ord, blk, h) <==> Key(ord, blk[i]) < h)
  {
    if blk != [] {
      var p := blk[..|blk| - 1];
      var x := blk[|blk| - 1];
      assert Sorted(ord, p);
      CountLessBoundary(ord, p, h);
      if Key(ord, x) < h {
        forall i | 0 <= i < |p|
          ensures Key(ord, p[i]) < h
        {
          assert Less(ord, blk[i], blk[|blk| - 1]);
        }
      }
    }
  }

  /** A position splitting a sorted block into records below `h` and the
      rest is the count of records below `h`. */
  lemma CountLessExact(ord: Ordering, blk: Block, h: nat, o: nat)
    requires Sorted(ord, blk) && o <= |blk|
    requires forall i :: 0 <= i < o ==> Key(ord, blk[i]) < h
    requires o < |blk| ==> Key(ord, blk[o]) >= h
    ensures o == CountLess(ord, blk, h)
  {
    CountLessBoundary(ord, blk, h);
    var c := CountLess(ord, blk, h);
    if o < c {
      assert false;
    } else if c < o {
      assert false;
    }
  }

  lemma {:induction false} CountLessMonotone(ord: Ordering, blk: Block, h1: nat, h2: nat)
    requires h1 <= h2
    ensures CountLess(ord, blk, h1) <= CountLess(ord, blk, h2)
  {
    if blk != [] {
      CountLessMonotone(ord, blk[..|blk| - 1], h1, h2);
    }
  }

  /** When every hash of the block is below `h`, every record counts. */
  lemma {:induction false} CountLessAll(ord: Ordering, blk: Block, h: nat)
    requires forall i :: 0 <= i < |blk| ==> Key(ord, blk[i]) < h
    ensures CountLess(ord, blk, h) == |blk|
  {
    if blk != [] {
      CountLessAll(ord, blk[..|blk| - 1], h);
    }
  }

  /** A later record of a sorted block never has a smaller hash. */
  lemma KeyOrdered(ord: Ordering, blk: Block, i: nat, j: nat)
    requires Sorted(ord, blk) && i <= j < |blk|
    ensures Key(ord, blk[i]) <= Key(ord, blk[j])
  {
    if i < j {
      assert Less(ord, blk[i], blk[j]);
    }
  }

  // ---------------------------------------------------------------------
  // The sparse index of a block

  /** The records an index generator samples: ordinals 0, stride, 2*stride, ... */
  function Samples(blk: Block, stride: nat): (s: seq<ReadEnds>)
    requires stride > 0
    ensures |s| <= |blk|
    ensures blk != [] ==> |s| > 0 && s[0] == blk[0]
    decreases |blk|
  {
    if blk == [] then []
    else [blk[0]] + Samples(if stride < |blk| then blk[stride..] else [], stride)
  }

  /** Sample b is the record at ordinal b*stride. */
  lemma SampleAt(blk: Block, stride: nat, b: nat)
    requires stride > 0 && b < |Samples(blk, stride)|
    ensures b * stride < |blk| && Samples(blk, stride)[b] == blk[b * stride]
  {
    SampleAtOrdinal(blk, stride, b);
    OrdinalIsProduct(b, stride);
  }

  /** b strides, added up one at a time. */
  function Ordinal(b: nat, stride: nat): nat
  {
    if b == 0 then 0 else Ordinal(b - 1, stride) + stride
  }

  lemma {:induction false} OrdinalIsProduct(b: nat, stride: nat)
    ensures Ordinal(b, stride) == b * stride
  {
    if b > 0 {
      OrdinalIsProduct(b - 1, stride);
      MulLe(b - 1, b - 1, stride);
    }
  }

  lemma {:induction false} SampleAtOrdinal(blk: Block, stride: nat, b: nat)
    requires stride > 0 && b < |Samples(blk, stride)|
    ensures Ordinal(b, stride) < |blk| && Samples(blk, stride)[b] == blk[Ordinal(b, stride)]
    decreases |blk|
  {
    if b > 0 {
      var rest := if stride < |blk| then blk[stride..] else [];
      assert Samples(blk, stride) == [blk[0]] + Samples(rest, stride);
      SampleAtOrdinal(rest, stride, b - 1);
      assert Ordinal(b, stride) == Ordinal(b - 1, stride) + stride;
    }
  }

  /** Every ordinal of the block has its sample: the index holds
      ceil(|blk| / stride) entries. */
  lemma {:induction false} SamplesCount(blk: Block, stride: nat, o: nat)
    requires stride > 0 && o < |blk|
    ensures o / stride < |Samples(blk, stride)|
    decreases |blk|
  {
    if stride <= o {
      var rest := blk[stride..];
      SamplesCount(rest, stride, o - stride);
      var q, r := (o - stride) / stride, (o - stride) % stride;
      assert o == (q + 1) * stride + r;
      DivisionUnique(o, stride, q + 1, r);
      assert |Samples(blk, stride)| == 1 + |Samples(rest, stride)|;
    } else {
      ModSmall(o, stride);
    }
  }

  /** The index of a sorted block is sorted. */
  lemma SamplesSorted(ord: Ordering, blk: Block, stride: nat)
    requires stride > 0 && Sorted(ord, blk)
    ensures Sorted(ord, Samples(blk, stride))
  {
    var s := Samples(blk, stride);
    forall a, b | 0 <= a < b < |s|
      ensures Less(ord, s[a], s[b])
    {
      SampleAt(blk, stride, a);
      SampleAt(blk, stride, b);
      MulLe(a + 1, b, stride);
    }
  }

  /** What `findLargestSmaller` returns: the number of the index entry and
      the sampled record it names. */
  datatype LargestSmaller = LargestSmaller(blockid: nat, D: ReadEnds)

  /** The index entry a search for `h` lands on: the last sample whose hash
      is below `h`, or entry 0 when there is none. */
  function FindLargestSmaller(ord: Ordering, blk: Block, stride: nat, h: nat): (r: LargestSmaller)
    requires stride > 0
    ensures blk != [] ==> r.blockid < |Samples(blk, stride)| && r.D == Samples(blk, stride)[r.blockid]
    ensures blk == [] ==> r.blockid == 0
  {
    var s := Samples(blk, stride);
    var c := CountLess(ord, s, h);
    if c == 0 then LargestSmaller(0, if s == [] then ZERO else s[0])
    else LargestSmaller(c - 1, s[c - 1])
  }

  /** On a sorted block the entry found is the largest one below `h`: entry
      blockid is below `h` unless it is entry 0, and no later entry is. */
  lemma FindLargestSmallerIsLargest(ord: Ordering, blk: Block, stride: nat, h: nat)
    requires stride > 0 && Sorted(ord, blk)
    ensures var r := FindLargestSmaller(ord, blk, stride, h);
            var s := Samples(blk, stride);
            (r.blockid > 0 ==> Key(ord, s[r.blockid]) < h) &&
            (forall b :: r.blockid < b < |s| ==> Key(ord, s[b]) >= h)
  {
    var s := Samples(blk, stride);
    SamplesSorted(ord, blk, stride);
    CountLessBoundary(ord, s, h);
  }

  /** Every record before the ordinal of the entry found is below `h`, so a
      forward scan from that ordinal finds the exact boundary. */
  lemma ScanStart(ord: Ordering, blk: Block, stride: nat, h: nat)
    requires stride > 0 && Sorted(ord, blk)
    ensures var r := FindLargestSmaller(ord, blk, stride, h);
            r.blockid * stride <= CountLess(ord, blk, h) &&
            (blk != [] ==> r.blockid * stride < |blk| && blk[r.blockid * stride] == r.D)
  {
    var r := FindLargestSmaller(ord, blk, stride, h);
    if blk != [] {
      SampleAt(blk, stride, r.blockid);
      var o := r.blockid * stride;
      FindLargestSmallerIsLargest(ord, blk, stride, h);
      CountLessBoundary(ord, blk, h);
      if r.blockid > 0 {
        assert Key(ord, blk[o]) < h;
        forall i | 0 <= i < o
          ensures Key(ord, blk[i]) < h
        {
          KeyOrdered(ord, blk, i, o);
        }
      }
    }
  }

  /** The cache-only lookup result summed by the index accessor: the entry
      number of the last sample below `h`. It grows with `h`. */
  lemma FindLargestSmallerMonotone(ord: Ordering, blk: Block, stride: nat, h1: nat, h2: nat)
    requires stride > 0 && h1 <= h2
    ensures FindLargestSmaller(ord, blk, stride, h1).blockid <= FindLargestSmaller(ord, blk, stride, h2).blockid
  {
    CountLessMonotone(ord, Samples(blk, stride), h1, h2);
  }

  // ---------------------------------------------------------------------
  // Files and the blocks they hold

  /** One sorted file as the collection's info describes it: where each
      block's index starts, how many records each block holds, and the
      records themselves (what decoding the data file yields). */
  datatype FileInfo = FileInfo(indexoffset: seq<nat>, blockelcnt: seq<nat>, data: seq<Block>)

  /** The info agrees with the file: one count per block, and each block
      has that many records, strictly increasing. */
  predicate WellFormed(ord: Ordering, fi: FileInfo)
  {
    |fi.indexoffset| == |fi.blockelcnt| == |fi.data| &&
    forall k :: 0 <= k < |fi.data| ==> |fi.data[k]| == fi.blockelcnt[k] && Sorted(ord, fi.data[k])
  }

  predicate AllWellFormed(ord: Ordering, infos: seq<FileInfo>)
  {
    forall f :: 0 <= f < |infos| ==> WellFormed(ord, infos[f])
  }

  /** Number of blocks of the files: the sum of their index offset counts. */
  function NumBlocks(infos: seq<FileInfo>): nat
  {
    if infos == [] then 0 else NumBlocks(infos[..|infos| - 1]) + |infos[|infos| - 1].indexoffset|
  }

  /** The blocks of all files, numbered file-major. */
  function Flatten(infos: seq<FileInfo>): seq<Block>
  {
    if infos == [] then [] else Flatten(infos[..|infos| - 1]) + infos[|infos| - 1].data
  }

  /** There are NumBlocks(infos) blocks in all. */
  lemma {:induction false} FlattenLength(ord: Ordering, infos: seq<FileInfo>)
    requires AllWellFormed(ord, infos)
    ensures |Flatten(infos)| == NumBlocks(infos)
  {
    if infos != [] {
      var p := infos[..|infos| - 1];
      assert AllWellFormed(ord, p);
      FlattenLength(ord, p);
      assert WellFormed(ord, infos[|infos| - 1]);
    }
  }

  /** Block k of file f has number NumBlocks(infos[..f]) + k. */
  lemma {:induction false} FlattenAt(ord: Ordering, infos: seq<FileInfo>, f: nat, k: nat)
    requires AllWellFormed(ord, infos)
    requires f < |infos| && k < |infos[f].data|
    ensures NumBlocks(infos[..f]) + k < NumBlocks(infos)
    ensures |Flatten(infos)| == NumBlocks(infos)
    ensures Flatten(infos)[NumBlocks(infos[..f]) + k] == infos[f].data[k]
  {
    var p := infos[..|infos| - 1];
    var last := infos[|infos| - 1];
    assert AllWellFormed(ord, p);
    assert WellFormed(ord, last);
    FlattenLength(ord, infos);
    FlattenLength(ord, p);
    assert Flatten(infos) == Flatten(p) + last.data;
    if f < |p| {
      assert infos[..f] == p[..f];
      FlattenAt(ord, p, f, k);
    } else {
      assert infos[..f] == p;
    }
  }

  lemma {:induction false} NumBlocksPrefix(infos: seq<FileInfo>, f: nat)
    requires f <= |infos|
    ensures NumBlocks(infos[..f]) <= NumBlocks(infos)
  {
    if f < |infos| {
      var p := infos[..|infos| - 1];
      NumBlocksPrefix(p, f);
      assert p[..f] == infos[..f];
    } else {
      assert infos[..f] == infos;
    }
  }

  /** Every block of a well-formed collection is sorted. */
  lemma FlattenSorted(ord: Ordering, infos: seq<FileInfo>)
    requires AllWellFormed(ord, infos)
    ensures forall j :: 0 <= j < |Flatten(infos)| ==> Sorted(ord, Flatten(infos)[j])
  {
    forall j | 0 <= j < |Flatten(infos)|
      ensures Sorted(ord, Flatten(infos)[j])
    {
      FlattenSortedAt(ord, infos, j);
    }
  }

  lemma {:induction false} FlattenSortedAt(ord: Ordering, infos: seq<FileInfo>, j: nat)
    requires AllWellFormed(ord, infos) && j < |Flatten(infos)|
    ensures Sorted(ord, Flatten(infos)[j])
  {
    var p := infos[..|infos| - 1];
    assert AllWellFormed(ord, p);
    if j < |Flatten(p)| {
      FlattenSortedAt(ord, p, j);
    }
  }

  // ---------------------------------------------------------------------
  // Sums over all blocks

  /** Total number of records over all blocks. */
  function TotalSize(blocks: seq<Block>): nat
  {
    if blocks == [] then 0 else TotalSize(blocks[..|blocks| - 1]) + |blocks[|blocks| - 1]|
  }

  /** The records of two runs of blocks add up. */
  lemma {:induction false} TotalSizeAppend(a: seq<Block>, b: seq<Block>)
    ensures TotalSize(a + b) == TotalSize(a) + TotalSize(b)
    decreases |b|
  {
    if b == [] {
      assert a + b == a;
    } else {
      assert (a + b)[..|a + b| - 1] == a + b[..|b| - 1];
      TotalSizeAppend(a, b[..|b| - 1]);
    }
  }

  /** Records below `h` over all blocks (the collection's count). */
  function CountAll(ord: Ordering, blocks: seq<Block>, h: nat): (c: nat)
    ensures c <= TotalSize(blocks)
    ensures h == 0 ==> c == 0
  {
    if blocks == [] then 0
    else CountAll(ord, blocks[..|blocks| - 1], h) + CountLess(ord, blocks[|blocks| - 1], h)
  }

  lemma {:induction false} CountAllMonotone(ord: Ordering, blocks: seq<Block>, h1: nat, h2: nat)
    requires h1 <= h2
    ensures CountAll(ord, blocks, h1) <= CountAll(ord, blocks, h2)
  {
    if blocks != [] {
      CountAllMonotone(ord, blocks[..|blocks| - 1], h1, h2);
      CountLessMonotone(ord, blocks[|blocks| - 1], h1, h2);
    }
  }

  /** Above every hash in the collection, every record counts. */
  lemma {:induction false} CountAllTop(ord: Ordering, blocks: seq<Block>, h: nat)
    requires forall j, i :: 0 <= j < |blocks| && 0 <= i < |blocks[j]| ==> Key(ord, blocks[j][i]) < h
    ensures CountAll(ord, blocks, h) == TotalSize(blocks)
  {
    if blocks != [] {
      var p := blocks[..|blocks| - 1];
      CountAllTop(ord, p, h);
      CountLessAll(ord, blocks[|blocks| - 1], h);
    }
  }

  /** Number of index entries over all blocks (`getTotalShortBlocks`). */
  function TotalSamples(blocks: seq<Block>, stride: nat): nat
    requires stride > 0
  {
    if blocks == [] then 0
    else TotalSamples(blocks[..|blocks| - 1], stride) + |Samples(blocks[|blocks| - 1], stride)|
  }

  /** The cache-only count: entry numbers found by every block's index. */
  function IndexCount(ord: Ordering, blocks: seq<Block>, stride: nat, h: nat): (c: nat)
    requires stride > 0
    ensures c <= TotalSamples(blocks, stride)
  {
    if blocks == [] then 0
    else
      var blk := blocks[|blocks| - 1];
      assert blk != [] ==> FindLargestSmaller(ord, blk, stride, h).blockid < |Samples(blk, stride)|;
      IndexCount(ord, blocks[..|blocks| - 1], stride, h) + FindLargestSmaller(ord, blk, stride, h).blockid
  }

  lemma {:induction false} IndexCountMonotone(ord: Ordering, blocks: seq<Block>, stride: nat, h1: nat, h2: nat)
    requires stride > 0 && h1 <= h2
    ensures IndexCount(ord, blocks, stride, h1) <= IndexCount(ord, blocks, stride, h2)
  {
    if blocks != [] {
      IndexCountMonotone(ord, blocks[..|blocks| - 1], stride, h1, h2);
      FindLargestSmallerMonotone(ord, blocks[|blocks| - 1], stride, h1, h2);
    }
  }
}
