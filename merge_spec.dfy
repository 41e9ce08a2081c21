/** What one merge worker promises: the records of its ranges, every one
    exactly once, in ascending order, with an index entry for every
    2^shift-th record. The heap is modelled as a sequence of
    (block, record) pairs whose top is a minimal record. */
module MergeSpec {
  import opened Base
  import opened ReadEndsBlocks
  import opened MergeIntervals

  /** The records of range `iv` of block `blk`; an empty or reversed range
      has none. */
  function Range(blk: Block, iv: Interval): seq<ReadEnds>
    decreases iv.second - iv.first
  {
    if iv.first < iv.second <= |blk| then [blk[iv.first]] + Range(blk, Interval(iv.first + 1, iv.second)) else []
  }

  /** Number of records of a range. */
  function Width(iv: Interval): nat
  {
    if iv.first < iv.second then iv.second - iv.first else 0
  }

  /** A range that ends inside its block holds Width records, the block's
      records from `first` on. */
  lemma {:induction false} RangeAt(blk: Block, iv: Interval)
    requires iv.second <= |blk|
    ensures |Range(blk, iv)| == Width(iv)
    ensures forall i :: 0 <= i < |Range(blk, iv)| ==> Range(blk, iv)[i] == blk[iv.first + i]
    decreases iv.second - iv.first
  {
    if iv.first < iv.second {
      RangeAt(blk, Interval(iv.first + 1, iv.second));
    }
  }

  /** The ranges name blocks of the collection and end inside them. */
  predicate RangesFit(blocks: seq<Block>, V: seq<Interval>)
  {
    |V| <= |blocks| &&
    forall i :: 0 <= i < |V| && V[i].first < V[i].second ==> V[i].second <= |blocks[i]|
  }

  /** The records still to be merged in the first k ranges. */
  function Pending(blocks: seq<Block>, V: seq<Interval>, k: nat): multiset<ReadEnds>
    requires k <= |V| <= |blocks|
  {
    if k == 0 then multiset{} else Pending(blocks, V, k - 1) + multiset(Range(blocks[k - 1], V[k - 1]))
  }

  /** Sum of the widths of the first k ranges. */
  function PendingCount(V: seq<Interval>, k: nat): nat
    requires k <= |V|
  {
    if k == 0 then 0 else PendingCount(V, k - 1) + Width(V[k - 1])
  }

  /** The ranges hold PendingCount records. */
  lemma {:induction false} PendingSize(blocks: seq<Block>, V: seq<Interval>, k: nat)
    requires RangesFit(blocks, V) && k <= |V|
    ensures |Pending(blocks, V, k)| == PendingCount(V, k)
  {
    if k > 0 {
      PendingSize(blocks, V, k - 1);
      var iv := V[k - 1];
      if iv.first < iv.second {
        RangeAt(blocks[k - 1], iv);
      }
    }
  }

  /** Taking the first record of range b (`get(V[b].first++)`) leaves the
      rest pending, in every prefix that holds b. */
  lemma {:induction false} PendingStep(blocks: seq<Block>, V: seq<Interval>, b: nat, k: nat)
    requires |V| <= |blocks| && b < k <= |V| && V[b].first < V[b].second <= |blocks[b]|
    ensures Pending(blocks, V[b := Interval(V[b].first + 1, V[b].second)], k) + multiset([blocks[b][V[b].first]])
            == Pending(blocks, V, k)
  {
    var V' := V[b := Interval(V[b].first + 1, V[b].second)];
    var x := blocks[b][V[b].first];
    if k - 1 == b {
      PendingUnchanged(blocks, V, V', b);
      var r := Range(blocks[b], V'[b]);
      assert Range(blocks[b], V[b]) == [x] + r;
      assert multiset([x] + r) == multiset{x} + multiset(r);
    } else {
      PendingStep(blocks, V, b, k - 1);
      assert V'[k - 1] == V[k - 1];
    }
  }

  /** ... and one record fewer. */
  lemma {:induction false} PendingCountStep(V: seq<Interval>, b: nat, k: nat)
    requires b < k <= |V| && V[b].first < V[b].second
    ensures PendingCount(V[b := Interval(V[b].first + 1, V[b].second)], k) + 1 == PendingCount(V, k)
  {
    var V' := V[b := Interval(V[b].first + 1, V[b].second)];
    if k - 1 == b {
      PendingCountUnchanged(V, V', b);
    } else {
      PendingCountStep(V, b, k - 1);
    }
  }

  /** Ranges before k are untouched by a change to a later range. */
  lemma {:induction false} PendingUnchanged(blocks: seq<Block>, V: seq<Interval>, V': seq<Interval>, k: nat)
    requires k <= |V| == |V'| <= |blocks|
    requires forall i :: 0 <= i < k ==> V[i] == V'[i]
    ensures Pending(blocks, V', k) == Pending(blocks, V, k)
  {
    if k > 0 {
      PendingUnchanged(blocks, V, V', k - 1);
      assert V'[k - 1] == V[k - 1];
      assert Range(blocks[k - 1], V'[k - 1]) == Range(blocks[k - 1], V[k - 1]);
    }
  }

  lemma {:induction false} PendingCountUnchanged(V: seq<Interval>, V': seq<Interval>, k: nat)
    requires k <= |V| == |V'|
    requires forall i :: 0 <= i < k ==> V[i] == V'[i]
    ensures PendingCount(V', k) == PendingCount(V, k)
  {
    if k > 0 {
      PendingCountUnchanged(V, V', k - 1);
    }
  }

  // ---------------------------------------------------------------------
  // The heap

  type Entry = (nat, ReadEnds)

  /** The records in the heap. */
  function Heads(Q: seq<Entry>): (r: seq<ReadEnds>)
    ensures |r| == |Q|
  {
    seq(|Q|, i requires 0 <= i < |Q| => Q[i].1)
  }

  lemma HeadsPush(Q: seq<Entry>, e: Entry)
    ensures multiset(Heads(Q + [e])) == multiset(Heads(Q)) + multiset([e.1])
  {
    assert Heads(Q + [e]) == Heads(Q) + [e.1];
  }

  /** Removing entry t takes its record out of the heap. */
  lemma HeadsRemove(Q: seq<Entry>, t: nat)
    requires t < |Q|
    ensures multiset(Heads(Q[..t] + Q[t + 1..])) + multiset([Q[t].1]) == multiset(Heads(Q))
  {
    var h := Heads(Q);
    assert Heads(Q[..t] + Q[t + 1..]) == h[..t] + h[t + 1..];
    assert h == h[..t] + [h[t]] + h[t + 1..];
  }

  /** The heap's top: a position holding a minimal record
      (`priority_queue::top` under a comparator putting the smallest record
      first; which of several equal records comes first is left open). */
  function MinIndex(ord: Ordering, Q: seq<Entry>): (t: nat)
    requires |Q| > 0
    ensures t < |Q| && forall i :: 0 <= i < |Q| ==> !Less(ord, Q[i].1, Q[t].1)
  {
    if |Q| == 1 then 0
    else
      var t := MinIndex(ord, Q[..|Q| - 1]);
      if Less(ord, Q[|Q| - 1].1, Q[t].1) then |Q| - 1 else t
  }

  /** Records in non-decreasing order. */
  predicate Ascending(ord: Ordering, s: seq<ReadEnds>)
  {
    forall i, j :: 0 <= i < j < |s| ==> !Less(ord, s[j], s[i])
  }

  // ---------------------------------------------------------------------
  // The state of a merge

  predicate SortedBlocks(ord: Ordering, blocks: seq<Block>)
  {
    forall b :: 0 <= b < |blocks| ==> Sorted(ord, blocks[b])
  }

  /** A heap entry (b, r): b is one of the first k ranges and r the record
      last taken from it, so `V[b].first` is already past it. */
  predicate Holds(blocks: seq<Block>, V: seq<Interval>, e: Entry, k: nat)
  {
    e.0 < k && e.0 < |V| && e.0 < |blocks| &&
    0 < V[e.0].first <= |blocks[e.0]| && e.1 == blocks[e.0][V[e.0].first - 1]
  }

  /** Every heap entry holds. */
  predicate EntriesHold(blocks: seq<Block>, V: seq<Interval>, Q: seq<Entry>, k: nat)
  {
    forall t :: 0 <= t < |Q| ==> Holds(blocks, V, Q[t], k)
  }

  /** No range has two heap entries. */
  predicate Distinct(Q: seq<Entry>)
  {
    forall t1, t2 :: 0 <= t1 < t2 < |Q| ==> Q[t1].0 != Q[t2].0
  }

  /** Every opened range with records left has a heap entry. */
  predicate Covered(V: seq<Interval>, Q: seq<Entry>, k: nat)
  {
    forall b :: 0 <= b < k && b < |V| && V[b].first < V[b].second ==> exists t :: 0 <= t < |Q| && Q[t].0 == b
  }

  /** No record is lost or duplicated: emitted, in the heap and still
      pending together make up the ranges given. */
  ghost predicate Conserved(blocks: seq<Block>, V0: seq<Interval>, V: seq<Interval>, Q: seq<Entry>, out: seq<ReadEnds>)
    requires |V| <= |blocks| && |V0| <= |blocks|
  {
    multiset(out) + multiset(Heads(Q)) + Pending(blocks, V, |V|) == Pending(blocks, V0, |V0|)
  }

  /** No heap record is below the last record emitted. */
  predicate Above(ord: Ordering, Q: seq<Entry>, out: seq<ReadEnds>)
  {
    out != [] ==> forall t :: 0 <= t < |Q| ==> !Less(ord, Q[t].1, out[|out| - 1])
  }

  /** The merge after opening the first k ranges and emitting `out`: every
      heap entry holds the last record taken from its range, no range has
      two entries, an opened range with records left has an entry, no
      record is lost or duplicated, the output is ascending and no heap
      record is below the last one emitted. */
  ghost predicate MergeState(ord: Ordering, blocks: seq<Block>, V0: seq<Interval>, V: seq<Interval>,
                             Q: seq<Entry>, out: seq<ReadEnds>, k: nat)
  {
    |V| == |V0| <= |blocks| && k <= |V| && RangesFit(blocks, V) && SortedBlocks(ord, blocks) &&
    EntriesHold(blocks, V, Q, k) && Distinct(Q) && Covered(V, Q, k) &&
    Conserved(blocks, V0, V, Q, out) && Ascending(ord, out) && Above(ord, Q, out)
  }

  lemma StateStart(ord: Ordering, blocks: seq<Block>, V0: seq<Interval>)
    requires RangesFit(blocks, V0) && SortedBlocks(ord, blocks)
    ensures MergeState(ord, blocks, V0, V0, [], [], 0)
  {
  }

  /** Opening range k when it is empty: nothing to push. */
  lemma OpenSkip(ord: Ordering, blocks: seq<Block>, V0: seq<Interval>, V: seq<Interval>, Q: seq<Entry>, k: nat)
    requires MergeState(ord, blocks, V0, V, Q, [], k) && k < |V| && !(V[k].first < V[k].second)
    ensures MergeState(ord, blocks, V0, V, Q, [], k + 1)
  {
    assert EntriesHold(blocks, V, Q, k + 1) by {
      forall t | 0 <= t < |Q|
        ensures Holds(blocks, V, Q[t], k + 1)
      {
        assert Holds(blocks, V, Q[t], k);
      }
    }
  }

  /** Opening range k: its first record goes into the heap. */
  lemma OpenPush(ord: Ordering, blocks: seq<Block>, V0: seq<Interval>, V: seq<Interval>, Q: seq<Entry>, k: nat)
    requires MergeState(ord, blocks, V0, V, Q, [], k) && k < |V| && V[k].first < V[k].second
    ensures V[k].first < |blocks[k]|
    ensures MergeState(ord, blocks, V0, V[k := Interval(V[k].first + 1, V[k].second)],
                       Q + [(k, blocks[k][V[k].first])], [], k + 1)
  {
    var x := blocks[k][V[k].first];
    var V' := V[k := Interval(V[k].first + 1, V[k].second)];
    var Q' := Q + [(k, x)];
    assert RangesFit(blocks, V');
    assert EntriesHold(blocks, V', Q', k + 1) by {
      forall t | 0 <= t < |Q'|
        ensures Holds(blocks, V', Q'[t], k + 1)
      {
        if t < |Q| {
          assert Holds(blocks, V, Q[t], k);
        }
      }
    }
    assert Covered(V', Q', k + 1) by {
      forall b | 0 <= b < k + 1 && V'[b].first < V'[b].second
        ensures exists t :: 0 <= t < |Q'| && Q'[t].0 == b
      {
        if b < k {
          var t :| 0 <= t < |Q| && Q[t].0 == b;
          assert Q'[t].0 == b;
        } else {
          assert Q'[|Q|].0 == b;
        }
      }
    }
    assert Distinct(Q') by {
      forall t1, t2 | 0 <= t1 < t2 < |Q'|
        ensures Q'[t1].0 != Q'[t2].0
      {
        assert Holds(blocks, V, Q[t1], k);
      }
    }
    assert Conserved(blocks, V0, V', Q', []) by {
      PendingStep(blocks, V, k, |V|);
      HeadsPush(Q, (k, x));
    }
  }

  /** The entries left after popping entry t are the others, in order. */
  lemma PopFacts(Q: seq<Entry>, t: nat)
    requires t < |Q|
    ensures var Q1 := Q[..t] + Q[t + 1..];
            |Q1| == |Q| - 1 &&
            (forall s :: 0 <= s < |Q1| ==> Q1[s] == if s < t then Q[s] else Q[s + 1]) &&
            (forall s :: 0 <= s < |Q| && s != t ==> Q[s] == Q1[if s < t then s else s - 1])
  {
  }

  /** Appending a record not below the last one keeps a sequence
      ascending. */
  lemma AppendAscending(ord: Ordering, out: seq<ReadEnds>, y: ReadEnds)
    requires Ascending(ord, out) && (out != [] ==> !Less(ord, y, out[|out| - 1]))
    ensures Ascending(ord, out + [y])
  {
    var out' := out + [y];
    forall i, j | 0 <= i < j < |out'|
      ensures !Less(ord, out'[j], out'[i])
    {
      if j == |out| && i < |out| - 1 {
        assert !Less(ord, out[|out| - 1], out[i]);
      }
    }
  }

  /** What every pop keeps: the remaining entries are distinct, hold and
      are not below the popped record. */
  lemma PopCommon(ord: Ordering, blocks: seq<Block>, V: seq<Interval>, Q: seq<Entry>, t: nat)
    requires |Q| > 0 && t == MinIndex(ord, Q)
    requires EntriesHold(blocks, V, Q, |V|) && Distinct(Q)
    ensures var Q1 := Q[..t] + Q[t + 1..];
            (forall s :: 0 <= s < |Q1| ==> Holds(blocks, V, Q1[s], |V|) && Q1[s].0 != Q[t].0 &&
                                           !Less(ord, Q1[s].1, Q[t].1)) &&
            Distinct(Q1)
  {
    PopHolds(blocks, V, Q, t);
    PopDistinct(Q, t);
    PopAbove(ord, Q, t);
  }

  lemma PopHolds(blocks: seq<Block>, V: seq<Interval>, Q: seq<Entry>, t: nat)
    requires t < |Q| && EntriesHold(blocks, V, Q, |V|)
    ensures EntriesHold(blocks, V, Q[..t] + Q[t + 1..], |V|)
  {
    var Q1 := Q[..t] + Q[t + 1..];
    forall s | 0 <= s < |Q1|
      ensures Holds(blocks, V, Q1[s], |V|)
    {
      assert Q1[s] == Q[if s < t then s else s + 1];
    }
  }

  lemma PopDistinct(Q: seq<Entry>, t: nat)
    requires t < |Q| && Distinct(Q)
    ensures var Q1 := Q[..t] + Q[t + 1..];
            Distinct(Q1) && forall s :: 0 <= s < |Q1| ==> Q1[s].0 != Q[t].0
  {
    var Q1 := Q[..t] + Q[t + 1..];
    forall s | 0 <= s < |Q1|
      ensures Q1[s].0 != Q[t].0
    {
      assert Q1[s] == Q[if s < t then s else s + 1];
    }
    forall t1, t2 | 0 <= t1 < t2 < |Q1|
      ensures Q1[t1].0 != Q1[t2].0
    {
      var u1 := if t1 < t then t1 else t1 + 1;
      var u2 := if t2 < t then t2 else t2 + 1;
      assert Q1[t1] == Q[u1] && Q1[t2] == Q[u2] && u1 < u2;
    }
  }

  lemma PopAbove(ord: Ordering, Q: seq<Entry>, t: nat)
    requires t < |Q| && forall i :: 0 <= i < |Q| ==> !Less(ord, Q[i].1, Q[t].1)
    ensures var Q1 := Q[..t] + Q[t + 1..];
            forall s :: 0 <= s < |Q1| ==> !Less(ord, Q1[s].1, Q[t].1)
  {
    var Q1 := Q[..t] + Q[t + 1..];
    forall s | 0 <= s < |Q1|
      ensures !Less(ord, Q1[s].1, Q[t].1)
    {
      assert Q1[s] == Q[if s < t then s else s + 1];
    }
  }

  /** Popping the top whose range is exhausted. */
  lemma PopOnly(ord: Ordering, blocks: seq<Block>, V0: seq<Interval>, V: seq<Interval>, Q: seq<Entry>,
                out: seq<ReadEnds>, t: nat)
    requires MergeState(ord, blocks, V0, V, Q, out, |V|) && |Q| > 0 && t == MinIndex(ord, Q)
    requires !(V[Q[t].0].first < V[Q[t].0].second)
    ensures MergeState(ord, blocks, V0, V, Q[..t] + Q[t + 1..], out + [Q[t].1], |V|)
  {
    var P := Q[t];
    var Q1 := Q[..t] + Q[t + 1..];
    var out' := out + [P.1];
    PopFacts(Q, t);
    PopCommon(ord, blocks, V, Q, t);
    AppendAscending(ord, out, P.1);
    assert EntriesHold(blocks, V, Q1, |V|);
    assert Above(ord, Q1, out');
    PopCovered(V, Q, t);
    PopConserved(blocks, V0, V, Q, out, t);
    assert Ascending(ord, out');
  }

  /** Removing the entry of an exhausted range keeps every range with
      records left covered. */
  lemma PopCovered(V: seq<Interval>, Q: seq<Entry>, t: nat)
    requires t < |Q| && Q[t].0 < |V| && !(V[Q[t].0].first < V[Q[t].0].second) && Covered(V, Q, |V|)
    ensures Covered(V, Q[..t] + Q[t + 1..], |V|)
  {
    var Q1 := Q[..t] + Q[t + 1..];
    PopFacts(Q, t);
    forall b | 0 <= b < |V| && V[b].first < V[b].second
      ensures exists s :: 0 <= s < |Q1| && Q1[s].0 == b
    {
      var s :| 0 <= s < |Q| && Q[s].0 == b;
      assert s != t;
      assert Q1[if s < t then s else s - 1].0 == b;
    }
  }

  /** Moving the top record from the heap to the output conserves the
      records. */
  lemma PopConserved(blocks: seq<Block>, V0: seq<Interval>, V: seq<Interval>, Q: seq<Entry>,
                     out: seq<ReadEnds>, t: nat)
    requires t < |Q| && |V| <= |blocks| && |V0| <= |blocks| && Conserved(blocks, V0, V, Q, out)
    ensures Conserved(blocks, V0, V, Q[..t] + Q[t + 1..], out + [Q[t].1])
  {
    HeadsRemove(Q, t);
    assert multiset(out + [Q[t].1]) == multiset(out) + multiset{Q[t].1};
  }

  /** Popping the top and pushing the next record of its range. */
  lemma PopRefill(ord: Ordering, blocks: seq<Block>, V0: seq<Interval>, V: seq<Interval>, Q: seq<Entry>,
                  out: seq<ReadEnds>, t: nat, b: nat)
    requires MergeState(ord, blocks, V0, V, Q, out, |V|) && |Q| > 0 && t == MinIndex(ord, Q)
    requires b == Q[t].0 && V[b].first < V[b].second
    ensures b < |V| && V[b].first < |blocks[b]|
    ensures MergeState(ord, blocks, V0, V[b := Interval(V[b].first + 1, V[b].second)],
                       (Q[..t] + Q[t + 1..]) + [(b, blocks[b][V[b].first])], out + [Q[t].1], |V|)
  {
    var P := Q[t];
    assert Holds(blocks, V, P, |V|);
    var x := blocks[b][V[b].first];
    var V' := V[b := Interval(V[b].first + 1, V[b].second)];
    var Q1 := Q[..t] + Q[t + 1..];
    var Q' := Q1 + [(b, x)];
    var out' := out + [P.1];
    assert RangesFit(blocks, V');
    assert EntriesHold(blocks, V', Q', |V|) && Distinct(Q') by {
      PopCommon(ord, blocks, V, Q, t);
      RefillHolds(blocks, V, Q1, b);
    }
    assert Covered(V', Q', |V|) by {
      RefillCovered(V, Q, t, x);
    }
    assert Ascending(ord, out') by {
      AppendAscending(ord, out, P.1);
    }
    assert Above(ord, Q', out') by {
      PopCommon(ord, blocks, V, Q, t);
      assert Less(ord, P.1, x) by {
        assert Sorted(ord, blocks[b]);
      }
    }
    RefillConserved(blocks, V0, V, Q, out, t, b);
  }

  /** Moving the top record to the output and the next record of its
      range to the heap conserves the records. */
  lemma RefillConserved(blocks: seq<Block>, V0: seq<Interval>, V: seq<Interval>, Q: seq<Entry>,
                        out: seq<ReadEnds>, t: nat, b: nat)
    requires t < |Q| && |V| <= |blocks| && |V0| <= |blocks| && Conserved(blocks, V0, V, Q, out)
    requires b < |V| && V[b].first < V[b].second <= |blocks[b]|
    ensures var V' := V[b := Interval(V[b].first + 1, V[b].second)];
            Conserved(blocks, V0, V', (Q[..t] + Q[t + 1..]) + [(b, blocks[b][V[b].first])], out + [Q[t].1])
  {
    var Q1 := Q[..t] + Q[t + 1..];
    PendingStep(blocks, V, b, |V|);
    HeadsRemove(Q, t);
    HeadsPush(Q1, (b, blocks[b][V[b].first]));
    assert multiset(out + [Q[t].1]) == multiset(out) + multiset{Q[t].1};
  }

  /** The refilled entry holds after `V[b].first++`, and the others, of
      other ranges, still hold. */
  lemma RefillHolds(blocks: seq<Block>, V: seq<Interval>, Q1: seq<Entry>, b: nat)
    requires b < |V| && b < |blocks| && V[b].first < V[b].second <= |blocks[b]|
    requires forall s :: 0 <= s < |Q1| ==> Holds(blocks, V, Q1[s], |V|) && Q1[s].0 != b
    requires Distinct(Q1)
    ensures var Q' := Q1 + [(b, blocks[b][V[b].first])];
            var V' := V[b := Interval(V[b].first + 1, V[b].second)];
            EntriesHold(blocks, V', Q', |V|) && Distinct(Q')
  {
    var Q' := Q1 + [(b, blocks[b][V[b].first])];
    var V' := V[b := Interval(V[b].first + 1, V[b].second)];
    forall s | 0 <= s < |Q'|
      ensures Holds(blocks, V', Q'[s], |V|)
    {
      if s < |Q1| {
        assert Holds(blocks, V, Q1[s], |V|);
      }
    }
  }

  /** Every range with records left still has an entry: b through the
      refill, the others through their entries that the pop kept. */
  lemma RefillCovered(V: seq<Interval>, Q: seq<Entry>, t: nat, x: ReadEnds)
    requires t < |Q| && Q[t].0 < |V| && Covered(V, Q, |V|)
    ensures var b := Q[t].0;
            Covered(V[b := Interval(V[b].first + 1, V[b].second)], (Q[..t] + Q[t + 1..]) + [(b, x)], |V|)
  {
    var b := Q[t].0;
    var V' := V[b := Interval(V[b].first + 1, V[b].second)];
    var Q1 := Q[..t] + Q[t + 1..];
    var Q' := Q1 + [(b, x)];
    PopFacts(Q, t);
    forall c | 0 <= c < |V| && V'[c].first < V'[c].second
      ensures exists s :: 0 <= s < |Q'| && Q'[s].0 == c
    {
      if c == b {
        assert Q'[|Q1|].0 == c;
      } else {
        var s :| 0 <= s < |Q| && Q[s].0 == c;
        assert Q'[if s < t then s else s - 1].0 == c;
      }
    }
  }

  /** An exhausted set of ranges has nothing pending. */
  lemma {:induction false} PendingExhausted(blocks: seq<Block>, V: seq<Interval>, k: nat)
    requires k <= |V| <= |blocks|
    requires forall b :: 0 <= b < k ==> !(V[b].first < V[b].second)
    ensures |Pending(blocks, V, k)| == 0
  {
    if k > 0 {
      PendingExhausted(blocks, V, k - 1);
    }
  }

  /** When the heap runs empty every record has been emitted. */
  lemma StateEnd(ord: Ordering, blocks: seq<Block>, V0: seq<Interval>, V: seq<Interval>, out: seq<ReadEnds>)
    requires MergeState(ord, blocks, V0, V, [], out, |V|)
    ensures multiset(out) == Pending(blocks, V0, |V0|)
  {
    PendingExhausted(blocks, V, |V|);
  }

  // ---------------------------------------------------------------------
  // The index written by the merge

  /** The index entries written while emitting `out`: the ordinal and the
      record of every record whose ordinal is a multiple of `stride`. */
  function IndexEntries(out: seq<ReadEnds>, stride: nat): seq<Entry>
    requires stride > 0
  {
    if out == [] then []
    else
      var n := |out| - 1;
      IndexEntries(out[..n], stride) + (if n % stride == 0 then [(n, out[n])] else [])
  }

  /** Emitting one more record adds an index entry exactly when its
      ordinal is a multiple of `stride`. */
  lemma IndexEntriesAppend(out: seq<ReadEnds>, x: ReadEnds, stride: nat)
    requires stride > 0
    ensures IndexEntries(out + [x], stride) ==
            IndexEntries(out, stride) + (if |out| % stride == 0 then [(|out|, x)] else [])
  {
    assert (out + [x])[..|out|] == out;
  }

  /** Entry k names ordinal k * stride, and the entries reach past the end
      of `out`. */
  lemma {:induction false} IndexEntriesAt(out: seq<ReadEnds>, stride: nat)
    requires stride > 0
    ensures var E := IndexEntries(out, stride);
            |out| <= |E| * stride &&
            forall k :: 0 <= k < |E| ==> E[k].0 == k * stride < |out| && E[k].1 == out[k * stride]
  {
    if out != [] {
      var n := |out| - 1;
      var p := out[..n];
      IndexEntriesAt(p, stride);
      var P := IndexEntries(p, stride);
      var m := |P|;
      var E := IndexEntries(out, stride);
      if n % stride == 0 {
        NextMultiple(n, stride, m);
        assert E == P + [(n, out[n])];
      } else {
        NotMultiple(n, stride, m);
        assert E == P;
      }
    }
  }

  /** With entries for ordinals 0, stride, ..., (m-1)*stride below n and
      n <= m*stride, a multiple n of stride is m*stride. */
  lemma NextMultiple(n: nat, stride: nat, m: nat)
    requires stride > 0 && n % stride == 0 && n <= m * stride
    requires m > 0 ==> (m - 1) * stride < n
    ensures n == m * stride && n + 1 <= (m + 1) * stride
  {
    var q := n / stride;
    DivMod(n, stride);
    if m > 0 {
      if q < m - 1 {
        MulLe(q + 1, m - 1, stride);
      }
    }
    if m < q {
      MulLe(m + 1, q, stride);
    }
    MulLe(m, m, stride);
  }

  /** A non-multiple n of stride lies strictly below the next multiple. */
  lemma NotMultiple(n: nat, stride: nat, m: nat)
    requires stride > 0 && n % stride != 0 && n <= m * stride
    ensures n + 1 <= m * stride
  {
    if m * stride == n {
      DivisionUnique(n, stride, m, 0);
    }
  }

  /** What the merge writes to the index is exactly the sparse index of
      its output, entry by entry: the read side's `Samples`. */
  lemma IndexEntriesAreSamples(out: seq<ReadEnds>, stride: nat)
    requires stride > 0
    ensures var E := IndexEntries(out, stride);
            |E| == |Samples(out, stride)| &&
            forall k :: 0 <= k < |E| ==> E[k] == (k * stride, Samples(out, stride)[k])
  {
    var E := IndexEntries(out, stride);
    var S := Samples(out, stride);
    IndexEntriesAt(out, stride);
    if |E| < |S| {
      SampleAt(out, stride, |E|);
    } else if |S| < |E| {
      SamplesCount(out, stride, |S| * stride);
      DivisionUnique(|S| * stride, stride, |S|, 0);
    }
    forall k | 0 <= k < |E|
      ensures E[k] == (k * stride, S[k])
    {
      SampleAt(out, stride, k);
    }
  }
}
