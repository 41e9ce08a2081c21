/** DNAIndexMetaDataBigBand: the sequence table of a DNA index, with the
    exclusive prefix sums of the sequence lengths that map a global
    coordinate of the concatenated text to a (sequence, offset) pair. */
module DNAIndexMeta {
  import opened Base
  import NumberSerialisation

  /** One DNAIndexMetaDataSequence record; the model keeps its length `l`,
      the only field this component reads. */
  datatype SequenceMeta = SequenceMeta(l: nat)

  /** The loaded table: the records S, the prefix sums L and the longest
      sequence length maxl. */
  datatype MetaData = MetaData(S: seq<SequenceMeta>, L: seq<nat>, maxl: nat)

  /** L[i] is the sum of the lengths of the records before i. */
  function Offset(S: seq<SequenceMeta>, i: nat): nat
    requires i <= |S|
  {
    if i == 0 then 0 else Offset(S, i - 1) + S[i - 1].l
  }

  /** The longest sequence length, 0 for an empty table. */
  function MaxLength(S: seq<SequenceMeta>): (r: nat)
    ensures forall i :: 0 <= i < |S| ==> S[i].l <= r
    ensures |S| == 0 ==> r == 0
    ensures |S| > 0 ==> exists i :: 0 <= i < |S| && S[i].l == r
  {
    if |S| == 0 then 0
    else
      var m := MaxLength(S[..|S| - 1]);
      assert forall i :: 0 <= i < |S| - 1 ==> S[..|S| - 1][i] == S[i];
      if S[|S| - 1].l > m then S[|S| - 1].l else m
  }

  /** The state the constructor establishes. */
  ghost predicate Valid(m: MetaData)
  {
    |m.L| == |m.S| + 1 &&
    (forall i :: 0 <= i <= |m.S| ==> m.L[i] == Offset(m.S, i)) &&
    m.maxl == MaxLength(m.S)
  }

  /** The constructor after the count: L gets the exclusive prefix sums
      of the lengths and maxl the longest length. */
  method Build(S: seq<SequenceMeta>) returns (m: MetaData)
    ensures m.S == S && Valid(m)
  {
    var L := PrefixSums(S);
    var maxl := LongestLength(S);
    m := MetaData(S, L[..], maxl);
  }

  /** L.resize(numseq + 1) and the loop copying the lengths: L holds the
      lengths followed by a 0. */
  method CopyLengths(S: seq<SequenceMeta>) returns (L: array<nat>)
    ensures fresh(L) && L.Length == |S| + 1 && L[|S|] == 0
    ensures forall i :: 0 <= i < |S| ==> L[i] == S[i].l
  {
    var n := |S|;
    L := new nat[n + 1](_ => 0);
    var i := 0;
    while i < n
      invariant 0 <= i <= n
      invariant forall j :: 0 <= j < i ==> L[j] == S[j].l
      invariant L[n] == 0
    {
      L[i] := S[i].l;
      i := i + 1;
    }
  }

  /** libmaus2::util::PrefixSums::prefixSums over L: each slot receives the
      sum of the slots before it. */
  method PrefixSums(S: seq<SequenceMeta>) returns (L: array<nat>)
    ensures L.Length == |S| + 1
    ensures forall i :: 0 <= i <= |S| ==> L[i] == Offset(S, i)
  {
    var n := |S|;
    L := CopyLengths(S);
    var acc := 0;
    var i := 0;
    while i < n
      invariant 0 <= i <= n
      invariant acc == Offset(S, i)
      invariant forall j {:trigger L[j]} :: 0 <= j < i ==> L[j] == Offset(S, j)
      invariant forall j :: i <= j < n ==> L[j] == S[j].l
      invariant L[n] == 0
    {
      var t := L[i];
      L[i] := acc;
      acc := acc + t;
      i := i + 1;
    }
    L[n] := acc + L[n];
  }

  /** The loop computing maxl. */
  method LongestLength(S: seq<SequenceMeta>) returns (maxl: nat)
    ensures maxl == MaxLength(S)
  {
    maxl := 0;
    var i := 0;
    while i < |S|
      invariant 0 <= i <= |S|
      invariant maxl == MaxLength(S[..i])
    {
      assert S[..i + 1][..i] == S[..i];
      if S[i].l > maxl {
        maxl := S[i].l;
      }
      i := i + 1;
    }
    assert S[..|S|] == S;
  }

  /** The constructor: an 8-byte sequence count, then that many records.
      The record decoder is not part of this model: `records` are the
      records the stream yields after the count, and too few of them is the
      decoder's end-of-file failure. */
  method Load(s: seq<byte>, records: seq<SequenceMeta>) returns (r: Result<MetaData>)
    ensures r.Ok? <==> |s| >= 8 && NumberSerialisation.Value(s[..8]) <= |records|
    ensures r.Ok? ==> r.value.S == records[..NumberSerialisation.Value(s[..8])] && Valid(r.value)
  {
    var numseq := NumberSerialisation.DeserialiseNumber(s);
    if numseq.Err? {
      return Err(numseq.msg);
    }
    if numseq.value.value > |records| {
      return Err("EOF in DNAIndexMetaDataSequence");
    }
    var m := Build(records[..numseq.value.value]);
    r := Ok(m);
  }

  // -------------------------------------------------------------------------
  // Facts about the prefix sums

  /** Consecutive prefix sums differ by the length of the record between. */
  lemma OffsetStep(m: MetaData, i: nat)
    requires Valid(m) && i < |m.S|
    ensures m.L[i + 1] == m.L[i] + m.S[i].l
  {
  }

  /** The prefix sums are non-decreasing. */
  lemma {:induction false} OffsetMonotone(S: seq<SequenceMeta>, i: nat, j: nat)
    requires i <= j <= |S|
    ensures Offset(S, i) <= Offset(S, j)
    decreases j - i
  {
    if i < j {
      OffsetMonotone(S, i, j - 1);
    }
  }

  /** The last prefix sum is the total length, at least every length. */
  lemma {:induction false} TotalAtLeastEach(S: seq<SequenceMeta>, i: nat)
    requires i < |S|
    ensures S[i].l <= Offset(S, |S|)
  {
    OffsetMonotone(S, 0, i);
    OffsetMonotone(S, i + 1, |S|);
  }

  // -------------------------------------------------------------------------
  // mapCoordinates and valid

  /** std::lower_bound(L.begin(), L.end(), x) on sorted L: the first index
      whose value is at least x (|L| if none). */
  function FirstAtLeast(L: seq<nat>, x: nat, k: nat): (r: nat)
    requires k <= |L|
    ensures k <= r <= |L|
    ensures forall j :: k <= j < r ==> L[j] < x
    ensures r < |L| ==> L[r] >= x
    decreases |L| - k
  {
    if k == |L| || L[k] >= x then k else FirstAtLeast(L, x, k + 1)
  }

  /** mapCoordinates(i) as written: the lower bound p of i in L; (p, 0) when
      L[p] == i, else (p - 1, i - L[p - 1]). */
  function MapCoordinates(m: MetaData, i: nat): (r: (nat, nat))
    requires Valid(m) && i < m.L[|m.L| - 1]
    ensures r.0 < |m.S| && m.L[r.0] + r.1 == i
  {
    var p := FirstAtLeast(m.L, i, 0);
    if m.L[p] == i then
      (p, 0)
    else
      assert p > 0 by { assert m.L[0] == 0; }
      (p - 1, i - m.L[p - 1])
  }

  /** A coordinate that is a prefix sum maps to offset 0 of the first
      record starting there; any other coordinate maps into the record
      whose range holds it. */
  lemma MapCoordinatesCases(m: MetaData, i: nat)
    requires Valid(m) && i < m.L[|m.L| - 1]
    ensures var r := MapCoordinates(m, i);
            (i in m.L ==> r.1 == 0 && m.L[r.0] == i && forall j :: 0 <= j < r.0 ==> m.L[j] < i) &&
            (i !in m.L ==> r.1 < m.S[r.0].l)
  {
    var p := FirstAtLeast(m.L, i, 0);
    if i in m.L {
      var j :| 0 <= j < |m.L| && m.L[j] == i;
      assert p <= j;
      OffsetMonotone(m.S, p, j);
    } else {
      assert m.L[p] != i;
      assert p > 0 by { assert m.L[0] == 0; }
      OffsetStep(m, p - 1);
    }
  }

  /** valid(P, k): the k positions from offset P.1 of record P.0 lie inside
      that record. */
  function IsValid(m: MetaData, P: (nat, nat), k: nat): (b: bool)
    requires P.0 < |m.S|
    ensures b <==> P.1 + k <= m.S[P.0].l
  {
    P.1 + k <= m.S[P.0].l
  }

  /** valid(P, k) means that the k coordinates from L[P.0] + P.1 end by the
      record's end L[P.0 + 1]; each of them then locates back to record
      P.0 at the matching offset, so the window never runs into the next
      record. */
  lemma IsValidWindow(m: MetaData, P: (nat, nat), k: nat, j: nat)
    requires Valid(m) && P.0 < |m.S|
    ensures IsValid(m, P, k) <==> m.L[P.0] + P.1 + k <= m.L[P.0 + 1]
    ensures IsValid(m, P, k) && j < k ==>
              m.L[P.0] + P.1 + j < m.L[|m.L| - 1] && Locate(m, m.L[P.0] + P.1 + j) == (P.0, P.1 + j)
  {
    OffsetStep(m, P.0);
    if IsValid(m, P, k) && j < k {
      var i := m.L[P.0] + P.1 + j;
      OffsetMonotone(m.S, P.0 + 1, |m.S|);
      var r := Locate(m, i);
      OffsetStep(m, r.0);
      if r.0 < P.0 {
        OffsetMonotone(m.S, r.0 + 1, P.0);
      }
    }
  }

  /** The position Locate(m, i) names, when valid for k, is a window of
      the concatenated text that stays inside one record: i + k does not
      pass the record's end L[s + 1]. */
  lemma ValidWindow(m: MetaData, i: nat, k: nat)
    requires Valid(m) && i < m.L[|m.L| - 1]
    ensures var r := Locate(m, i);
            IsValid(m, r, k) <==> i + k <= m.L[r.0 + 1]
  {
    var r := Locate(m, i);
    OffsetStep(m, r.0);
  }

  /** The coordinate 0 of the table with lengths [0, 3] maps to the empty
      record 0, where no window of length 1 is valid, although the record 1
      holds it. */
  lemma MapCoordinatesEmptyRecord()
    ensures var m := MetaData([SequenceMeta(0), SequenceMeta(3)], [0, 0, 3], 3);
            Valid(m) && MapCoordinates(m, 0) == (0, 0) && !IsValid(m, (0, 0), 1) &&
            Locate(m, 0) == (1, 0) && IsValid(m, (1, 0), 1)
  {
    var m := MetaData([SequenceMeta(0), SequenceMeta(3)], [0, 0, 3], 3);
    assert MaxLength(m.S[..1]) == 0;
    assert FirstAtLeast(m.L, 0, 0) == 0;
    assert FirstAtLeast(m.L, 1, 0) == 2 by {
      assert FirstAtLeast(m.L, 1, 2) == 2;
      assert FirstAtLeast(m.L, 1, 1) == 2;
    }
  }

  /** std::upper_bound(L.begin(), L.end(), x) on sorted L: the first index
      whose value exceeds x (|L| if none). */
  function FirstAbove(L: seq<nat>, x: nat, k: nat): (r: nat)
    requires k <= |L|
    ensures k <= r <= |L|
    ensures forall j :: k <= j < r ==> L[j] <= x
    ensures r < |L| ==> L[r] > x
    decreases |L| - k
  {
    if k == |L| || L[k] > x then k else FirstAbove(L, x, k + 1)
  }

  /** The intended mapCoordinates: the record s with L[s] <= i < L[s + 1],
      found as upper_bound - 1, so that the offset is inside the record
      even when empty records share its start. */
  function Locate(m: MetaData, i: nat): (r: (nat, nat))
    requires Valid(m) && i < m.L[|m.L| - 1]
    ensures r.0 < |m.S| && m.L[r.0] + r.1 == i && r.1 < m.S[r.0].l
  {
    var p := FirstAbove(m.L, i, 0);
    assert 0 < p <= |m.S| by {
      assert m.L[0] == 0;
    }
    OffsetStep(m, p - 1);
    (p - 1, i - m.L[p - 1])
  }

  /** Without empty records the two agree. */
  lemma {:induction false} LocateAgrees(m: MetaData, i: nat)
    requires Valid(m) && i < m.L[|m.L| - 1]
    requires forall j :: 0 <= j < |m.S| ==> m.S[j].l > 0
    ensures Locate(m, i) == MapCoordinates(m, i)
  {
    var p := FirstAtLeast(m.L, i, 0);
    var q := FirstAbove(m.L, i, 0);
    var r := Locate(m, i);
    assert m.L[r.0] <= i < m.L[r.0 + 1] by {
      OffsetStep(m, r.0);
    }
    if m.L[p] == i {
      // L is strictly increasing, so only p holds the value i
      StrictlyIncreasing(m, p, r.0 + 1);
      if r.0 < p {
        StrictlyIncreasing(m, r.0, p);
      }
      if p < r.0 {
        StrictlyIncreasing(m, p, r.0);
      }
    } else {
      assert p > 0 by { assert m.L[0] == 0; }
      assert m.L[p - 1] < i < m.L[p];
      if p - 1 < r.0 {
        StrictlyIncreasing(m, p, r.0);
      }
    }
  }

  /** With positive lengths, L strictly increases. */
  lemma {:induction false} StrictlyIncreasing(m: MetaData, i: nat, j: nat)
    requires Valid(m) && i < j <= |m.S|
    requires forall k :: 0 <= k < |m.S| ==> m.S[k].l > 0
    ensures m.L[i] < m.L[j]
    decreases j - i
  {
    OffsetStep(m, j - 1);
    if i < j - 1 {
      StrictlyIncreasing(m, i, j - 1);
    }
  }
}
