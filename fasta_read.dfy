/** The line-wrapped layout of a FASTA sequence in its file, and the loop
    of FastAIndex::readSequence / readSequenceRange that copies bases out
    of it: `bpl` bases per line, then `skip` line-terminator bytes that
    are ignored before the next line. The file is the byte sequence the
    stream holds; a read or ignore that hits its end is a short read. */
module FastALayout {
  import opened Base

  /** Where base j of a sequence lies, relative to the position of base 0:
      each full line before it takes bpl + skip bytes. */
  function LinePos(j: nat, bpl: nat, skip: nat): nat
    requires bpl > 0
    decreases j
  {
    if j < bpl then j else bpl + skip + LinePos(j - bpl, bpl, skip)
  }

  /** The closed form the seek of readSequenceRange computes: j / bpl
      lines of bpl + skip bytes, then j % bpl bytes. */
  lemma {:induction false} LinePosClosedForm(j: nat, bpl: nat, skip: nat)
    requires bpl > 0
    ensures LinePos(j, bpl, skip) == (j / bpl) * (bpl + skip) + j % bpl
    decreases j
  {
    if j < bpl {
      DivisionUnique(j, bpl, 0, j);
    } else {
      LinePosClosedForm(j - bpl, bpl, skip);
      var q, r := (j - bpl) / bpl, (j - bpl) % bpl;
      DivMod(j - bpl, bpl);
      assert j == (q + 1) * bpl + r;
      DivisionUnique(j, bpl, q + 1, r);
      MulLe(q, q, bpl + skip);
    }
  }

  /** Base k + bpl lies one line, bpl + skip bytes, after base k. */
  lemma LinePosShift(k: nat, bpl: nat, skip: nat)
    requires bpl > 0
    ensures LinePos(k + bpl, bpl, skip) == LinePos(k, bpl, skip) + bpl + skip
  {
  }

  /** Bases further on lie further on in the file. */
  lemma {:induction false} LinePosMonotone(i: nat, j: nat, bpl: nat, skip: nat)
    requires bpl > 0 && i <= j
    ensures LinePos(i, bpl, skip) <= LinePos(j, bpl, skip)
    decreases j
  {
    if i < bpl && j >= bpl {
      LinePosMonotone(0, j - bpl, bpl, skip);
    } else if i >= bpl {
      LinePosMonotone(i - bpl, j - bpl, bpl, skip);
    }
  }

  /** d is the first base of a line. */
  predicate LineStart(d: nat, bpl: nat)
    requires bpl > 0
    decreases d
  {
    d == 0 || (d >= bpl && LineStart(d - bpl, bpl))
  }

  /** Within a line, bases are consecutive bytes. */
  lemma {:induction false} WithinLine(d: nat, j: nat, bpl: nat, skip: nat)
    requires bpl > 0 && LineStart(d, bpl) && j < bpl
    ensures LinePos(d + j, bpl, skip) == LinePos(d, bpl, skip) + j
    decreases d
  {
    if d > 0 {
      WithinLine(d - bpl, j, bpl, skip);
    }
  }

  /** in.read(cur, re): copy re bytes of the file at pos into A at cur. */
  method CopyLine(file: seq<byte>, pos: nat, A: array<byte>, cur: nat, re: nat)
    requires pos + re <= |file| && cur + re <= A.Length
    modifies A
    ensures A[..] == old(A[..cur]) + file[pos..pos + re] + old(A[cur + re..])
    ensures A[..cur] == old(A[..cur])
  {
    forall k | cur <= k < cur + re {
      A[k] := file[pos + (k - cur)];
    }
    assert A[..] == old(A[..cur]) + file[pos..pos + re] + old(A[cur + re..]);
  }

  /** The file position of base j of a layout whose base 0 is at pos0. */
  function Spot(pos0: nat, j: nat, bpl: nat, skip: nat): nat
    requires bpl > 0
  {
    pos0 + LinePos(j, bpl, skip)
  }

  /** The bytes S[cur0..cur0 + d] hold the first d bases of the layout at
      pos0. */
  ghost predicate Filled(file: seq<byte>, S: seq<byte>, cur0: nat, pos0: nat, d: nat, bpl: nat, skip: nat)
    requires bpl > 0 && cur0 + d <= |S|
  {
    forall j :: 0 <= j < d ==> Spot(pos0, j, bpl, skip) < |file| && S[cur0 + j] == file[Spot(pos0, j, bpl, skip)]
  }

  /** Copying the line of re bases that starts at base d extends Filled. */
  lemma FilledLine(file: seq<byte>, S: seq<byte>, S': seq<byte>, cur0: nat, pos0: nat, d: nat, re: nat, bpl: nat, skip: nat)
    requires bpl > 0 && cur0 + d + re <= |S| && 0 < re <= bpl && LineStart(d, bpl)
    requires Spot(pos0, d, bpl, skip) + re <= |file|
    requires Filled(file, S, cur0, pos0, d, bpl, skip)
    requires S' == S[..cur0 + d] + file[Spot(pos0, d, bpl, skip)..Spot(pos0, d, bpl, skip) + re] + S[cur0 + d + re..]
    ensures Filled(file, S', cur0, pos0, d + re, bpl, skip)
  {
    var pos := Spot(pos0, d, bpl, skip);
    forall j | 0 <= j < d + re
      ensures Spot(pos0, j, bpl, skip) < |file| && S'[cur0 + j] == file[Spot(pos0, j, bpl, skip)]
    {
      if j < d {
        assert S'[cur0 + j] == S[cur0 + j];
      } else {
        WithinLine(d, j - d, bpl, skip);
        assert S'[cur0 + j] == file[pos + (j - d)];
      }
    }
  }

  /** The `while (todo)` loop: read min(todo, bpl) bytes at `pos` into A
      at `cur`, and while bytes remain to be read, ignore `skip` bytes.
      It succeeds exactly when the file holds the last base it needs, and
      then each A[cur0 + j] is the byte at LinePos(j) from pos0. */
  method ReadLines(file: seq<byte>, A: array<byte>, cur0: nat, pos0: nat, bpl: nat, skip: nat)
    returns (ok: bool)
    requires bpl > 0 && cur0 <= A.Length
    modifies A
    ensures ok <==> cur0 == A.Length || Spot(pos0, A.Length - 1 - cur0, bpl, skip) < |file|
    ensures ok ==> Filled(file, A[..], cur0, pos0, A.Length - cur0, bpl, skip)
    ensures A[..cur0] == old(A[..cur0])
  {
    var cur := cur0;
    var pos: nat := pos0;
    while cur < A.Length
      invariant cur0 <= cur <= A.Length
      invariant cur < A.Length ==> LineStart(cur - cur0, bpl) && pos == Spot(pos0, cur - cur0, bpl, skip)
      invariant Filled(file, A[..], cur0, pos0, cur - cur0, bpl, skip)
      invariant A[..cur0] == old(A[..cur0])
      decreases A.Length - cur
    {
      ghost var before := A[..];
      var cur', pos';
      ok, cur', pos' := ReadLine(file, A, cur0, pos0, bpl, skip, cur, pos);
      if !ok {
        assert A[..cur0] == before[..cur0];
        return;
      }
      FilledLine(file, before, A[..], cur0, pos0, cur - cur0, cur' - cur, bpl, skip);
      assert A[..cur0] == before[..cur0];
      cur, pos := cur', pos';
    }
    if cur > cur0 {
      assert Spot(pos0, A.Length - 1 - cur0, bpl, skip) < |file|;
    }
    ok := true;
  }

  /** One round of the loop: a line of re = min(todo, bpl) bases, then,
      while bases remain, the line terminator. */
  method ReadLine(file: seq<byte>, A: array<byte>, cur0: nat, pos0: nat, bpl: nat, skip: nat, cur: nat, pos: nat)
    returns (ok: bool, cur': nat, pos': nat)
    requires bpl > 0 && cur0 <= cur < A.Length
    requires LineStart(cur - cur0, bpl) && pos == Spot(pos0, cur - cur0, bpl, skip)
    modifies A
    ensures A[..cur] == old(A[..cur])
    ensures !ok ==> Spot(pos0, A.Length - 1 - cur0, bpl, skip) >= |file|
    ensures ok ==> cur < cur' <= A.Length && cur' - cur <= bpl && pos + (cur' - cur) <= |file|
    ensures ok ==> A[..] == old(A[..cur]) + file[pos..pos + (cur' - cur)] + old(A[cur'..])
    ensures ok && cur' < A.Length ==> LineStart(cur' - cur0, bpl) && pos' == Spot(pos0, cur' - cur0, bpl, skip)
  {
    var d := cur - cur0;
    var n := A.Length - cur0;
    var todo := A.Length - cur;
    var re := if todo < bpl then todo else bpl;
    if pos + re > |file| {
      ShortLine(pos0, d, re, n, bpl, skip, |file|);
      return false, cur, pos;
    }
    CopyLine(file, pos, A, cur, re);
    cur' := cur + re;
    pos' := pos + re;
    ok := true;
    if cur' < A.Length {
      ok, pos' := SkipTerminator(|file|, pos0, d, n, bpl, skip, pos);
      if !ok {
        return false, cur, pos;
      }
    }
  }

  /** The in.ignore(skip) after a full line of bases, when bases remain:
      it fails when the terminator runs past the end of the file, and
      the next line then lies beyond it too. */
  method SkipTerminator(size: nat, pos0: nat, d: nat, n: nat, bpl: nat, skip: nat, pos: nat)
    returns (ok: bool, pos': nat)
    requires bpl > 0 && LineStart(d, bpl) && pos == Spot(pos0, d, bpl, skip) && d + bpl < n
    ensures !ok ==> Spot(pos0, n - 1, bpl, skip) >= size
    ensures ok ==> pos + bpl <= size && LineStart(d + bpl, bpl) && pos' == Spot(pos0, d + bpl, bpl, skip)
  {
    NextLineStart(pos0, d, bpl, skip);
    if pos + bpl + skip > size {
      BeyondFile(pos0, d + bpl, n - 1, bpl, skip, size);
      return false, pos;
    }
    return true, pos + bpl + skip;
  }

  /** A line of re bases starting at base d that runs past the end of the
      file leaves every base from d + re - 1 on beyond it. */
  lemma ShortLine(pos0: nat, d: nat, re: nat, n: nat, bpl: nat, skip: nat, size: nat)
    requires bpl > 0 && LineStart(d, bpl) && 0 < re <= bpl && d + re <= n
    requires Spot(pos0, d, bpl, skip) + re > size
    ensures Spot(pos0, n - 1, bpl, skip) >= size
  {
    WithinLine(d, re - 1, bpl, skip);
    LinePosMonotone(d + re - 1, n - 1, bpl, skip);
  }

  /** The line after the one starting at base d starts at base d + bpl,
      bpl + skip bytes on. */
  lemma NextLineStart(pos0: nat, d: nat, bpl: nat, skip: nat)
    requires bpl > 0 && LineStart(d, bpl)
    ensures LineStart(d + bpl, bpl)
    ensures Spot(pos0, d + bpl, bpl, skip) == Spot(pos0, d, bpl, skip) + bpl + skip
  {
    LinePosShift(d, bpl, skip);
  }

  /** q full lines further on, base x lies q * (bpl + skip) bytes later. */
  lemma {:induction false} LinePosLines(q: nat, x: nat, bpl: nat, skip: nat)
    requires bpl > 0
    ensures LinePos(q * bpl + x, bpl, skip) == q * (bpl + skip) + LinePos(x, bpl, skip)
    decreases q
  {
    if q > 0 {
      var j, y := q * bpl + x, (q - 1) * bpl + x;
      var c, c' := q * (bpl + skip), (q - 1) * (bpl + skip);
      MulLe(q - 1, q - 1, bpl);
      MulLe(q - 1, q - 1, bpl + skip);
      assert j == y + bpl && c == c' + (bpl + skip);
      LinePosShift(y, bpl, skip);
      LinePosLines(q - 1, x, bpl, skip);
      assert LinePos(j, bpl, skip) == c' + LinePos(x, bpl, skip) + bpl + skip;
    }
  }

  /** S holds, in order, the bases first, first + 1, ... of the layout
      whose base 0 lies at pos0. */
  ghost predicate Holds(file: seq<byte>, S: seq<byte>, pos0: nat, first: nat, bpl: nat, skip: nat)
    requires bpl > 0
  {
    forall k :: first <= k < first + |S| ==>
      Spot(pos0, k, bpl, skip) < |file| && S[k - first] == file[Spot(pos0, k, bpl, skip)]
  }

  /** The read of readSequenceRange from its seek position base + r0 on:
      first the rest of the line base r0 lies on, the line terminator if
      bases remain, then whole lines as ReadLines reads them. It succeeds
      exactly when the file holds the last base, and A then holds the
      bases r0, r0 + 1, ... of the layout at base. */
  method ReadRange(file: seq<byte>, A: array<byte>, base: nat, r0: nat, bpl: nat, skip: nat)
    returns (ok: bool)
    requires bpl > 0 && r0 < bpl
    modifies A
    ensures ok <==> A.Length == 0 || Spot(base, r0 + A.Length - 1, bpl, skip) < |file|
    ensures ok ==> Holds(file, A[..], base, r0, bpl, skip)
  {
    if r0 == 0 {
      ok := ReadLines(file, A, 0, base, bpl, skip);
    } else {
      ok := ReadFromMidLine(file, A, base, r0, bpl, skip);
    }
  }

  /** ReadRange when the seek lands inside a line. */
  method ReadFromMidLine(file: seq<byte>, A: array<byte>, base: nat, r0: nat, bpl: nat, skip: nat)
    returns (ok: bool)
    requires bpl > 0 && 0 < r0 < bpl
    modifies A
    ensures ok <==> A.Length == 0 || Spot(base, r0 + A.Length - 1, bpl, skip) < |file|
    ensures ok ==> Holds(file, A[..], base, r0, bpl, skip)
  {
    var n := A.Length;
    if n == 0 {
      return true;
    }
    var pos := base + r0;
    var re := if n < bpl - r0 then n else bpl - r0;
    if pos + re > |file| {
      assert Spot(base, r0 + re - 1, bpl, skip) == pos + re - 1;
      BeyondFile(base, r0 + re - 1, r0 + n - 1, bpl, skip, |file|);
      return false;
    }
    CopyLine(file, pos, A, 0, re);
    if re == n {
      assert A[..] == file[pos..pos + re];
      HoldsWithinLine(file, A[..], base, r0, bpl, skip);
      return true;
    }
    // re == bpl - r0: the next line starts with base bpl
    assert A[..re] == file[pos..pos + re];
    ok := ReadNextLines(file, A, base, r0, bpl, skip);
  }

  /** The rest of ReadFromMidLine once the first line, the bases r0 to
      bpl - 1, is in A: skip the line terminator, then read whole lines. */
  method ReadNextLines(file: seq<byte>, A: array<byte>, base: nat, r0: nat, bpl: nat, skip: nat)
    returns (ok: bool)
    requires bpl > 0 && 0 < r0 < bpl && bpl - r0 < A.Length && base + bpl <= |file|
    requires A[..bpl - r0] == file[base + r0..base + bpl]
    modifies A
    ensures ok <==> Spot(base, r0 + A.Length - 1, bpl, skip) < |file|
    ensures ok ==> Holds(file, A[..], base, r0, bpl, skip)
  {
    var n := A.Length;
    var re := bpl - r0;
    var next := base + bpl + skip;
    NextLine(base, bpl, skip);
    if next > |file| {
      BeyondFile(base, bpl, r0 + n - 1, bpl, skip, |file|);
      return false;
    }
    ghost var head := A[..re];
    ok := ReadLines(file, A, re, next, bpl, skip);
    LastOfNextLines(base, r0, n, bpl, skip);
    if ok {
      assert A[..re] == head;
      HoldsAcrossLine(file, A[..], base, r0, bpl, skip);
    }
  }

  /** Base bpl, the first of the second line, lies bpl + skip bytes on. */
  lemma NextLine(base: nat, bpl: nat, skip: nat)
    requires bpl > 0
    ensures Spot(base, bpl, bpl, skip) == base + bpl + skip
  {
    LinePosShift(0, bpl, skip);
  }

  /** When base i lies beyond the file, so does every later base j. */
  lemma BeyondFile(base: nat, i: nat, j: nat, bpl: nat, skip: nat, size: nat)
    requires bpl > 0 && i <= j && Spot(base, i, bpl, skip) >= size
    ensures Spot(base, j, bpl, skip) >= size
  {
    LinePosMonotone(i, j, bpl, skip);
  }

  /** The last base read after the first line, counted from the second
      line, is base r0 + n - 1 of the layout. */
  lemma LastOfNextLines(base: nat, r0: nat, n: nat, bpl: nat, skip: nat)
    requires 0 < r0 < bpl && bpl - r0 < n
    ensures Spot(base + bpl + skip, n - 1 - (bpl - r0), bpl, skip) == Spot(base, r0 + n - 1, bpl, skip)
  {
    assert r0 + n - 1 == n - 1 - (bpl - r0) + bpl;
    LinePosShift(n - 1 - (bpl - r0), bpl, skip);
  }

  /** Bytes read from inside one line hold consecutive bases. */
  lemma HoldsWithinLine(file: seq<byte>, S: seq<byte>, base: nat, r0: nat, bpl: nat, skip: nat)
    requires bpl > 0 && r0 + |S| <= bpl && base + r0 + |S| <= |file|
    requires S == file[base + r0..base + r0 + |S|]
    ensures Holds(file, S, base, r0, bpl, skip)
  {
    forall k | r0 <= k < r0 + |S|
      ensures Spot(base, k, bpl, skip) < |file| && S[k - r0] == file[Spot(base, k, bpl, skip)]
    {
      assert Spot(base, k, bpl, skip) == base + k;
    }
  }

  /** The rest of the line base r0 lies on, then whole lines from base bpl
      on, hold the bases r0, r0 + 1, ... */
  lemma HoldsAcrossLine(file: seq<byte>, S: seq<byte>, base: nat, r0: nat, bpl: nat, skip: nat)
    requires 0 < r0 < bpl && bpl - r0 <= |S| && base + bpl <= |file|
    requires S[..bpl - r0] == file[base + r0..base + bpl]
    requires Filled(file, S, bpl - r0, base + bpl + skip, |S| - (bpl - r0), bpl, skip)
    ensures Holds(file, S, base, r0, bpl, skip)
  {
    var re := bpl - r0;
    forall k | r0 <= k < r0 + |S|
      ensures Spot(base, k, bpl, skip) < |file| && S[k - r0] == file[Spot(base, k, bpl, skip)]
    {
      if k < bpl {
        assert S[k - r0] == S[..re][k - r0];
        assert Spot(base, k, bpl, skip) == base + k;
      } else {
        var i := k - bpl;
        assert Spot(base + bpl + skip, i, bpl, skip) < |file| && S[re + i] == file[Spot(base + bpl + skip, i, bpl, skip)];
        assert LinePos(k, bpl, skip) == bpl + skip + LinePos(i, bpl, skip);
      }
    }
  }

  /** The seek of readSequenceRange, offset + (low / bpl) * bytesperline,
      plus the layout position of base low % bpl + k, is where base
      low + k of the whole sequence lies, when a line takes
      bytesperline = bpl + skip bytes. */
  lemma RangeSpot(offset: nat, low: nat, k: nat, bpl: nat, skip: nat, bytesperline: nat)
    requires bpl > 0 && bytesperline == bpl + skip
    ensures Spot(offset + (low / bpl) * bytesperline, low % bpl + k, bpl, skip) == Spot(offset, low + k, bpl, skip)
  {
    DivMod(low, bpl);
    assert low + k == (low / bpl) * bpl + (low % bpl + k);
    LinePosLines(low / bpl, low % bpl + k, bpl, skip);
  }

  /** What a range read holds is the slice [low, low + |R|) of what the
      read of the whole sequence holds, and the other way round. */
  lemma RangeIsSlice(file: seq<byte>, W: seq<byte>, R: seq<byte>, offset: nat, low: nat, bpl: nat, skip: nat, bytesperline: nat)
    requires bpl > 0 && bytesperline == bpl + skip
    requires Holds(file, W, offset, 0, bpl, skip) && low + |R| <= |W|
    ensures Holds(file, R, offset + (low / bpl) * bytesperline, low % bpl, bpl, skip) <==> R == W[low..low + |R|]
  {
    var base := offset + (low / bpl) * bytesperline;
    if Holds(file, R, base, low % bpl, bpl, skip) {
      SliceOfRange(file, W, R, offset, low, bpl, skip, bytesperline, base);
    }
    if R == W[low..low + |R|] {
      RangeOfSlice(file, W, R, offset, low, bpl, skip, bytesperline, base);
    }
  }

  lemma SliceOfRange(file: seq<byte>, W: seq<byte>, R: seq<byte>, offset: nat, low: nat, bpl: nat, skip: nat, bytesperline: nat, base: nat)
    requires bpl > 0 && bytesperline == bpl + skip && base == offset + (low / bpl) * bytesperline
    requires Holds(file, W, offset, 0, bpl, skip) && low + |R| <= |W|
    requires Holds(file, R, base, low % bpl, bpl, skip)
    ensures R == W[low..low + |R|]
  {
    var r0 := low % bpl;
    forall k | 0 <= k < |R|
      ensures R[k] == W[low + k]
    {
      RangeSpot(offset, low, k, bpl, skip, bytesperline);
      assert R[(r0 + k) - r0] == file[Spot(base, r0 + k, bpl, skip)];
      assert W[(low + k) - 0] == file[Spot(offset, low + k, bpl, skip)];
    }
  }

  lemma RangeOfSlice(file: seq<byte>, W: seq<byte>, R: seq<byte>, offset: nat, low: nat, bpl: nat, skip: nat, bytesperline: nat, base: nat)
    requires bpl > 0 && bytesperline == bpl + skip && base == offset + (low / bpl) * bytesperline
    requires Holds(file, W, offset, 0, bpl, skip) && low + |R| <= |W|
    requires R == W[low..low + |R|]
    ensures Holds(file, R, base, low % bpl, bpl, skip)
  {
    var r0 := low % bpl;
    forall i | r0 <= i < r0 + |R|
      ensures Spot(base, i, bpl, skip) < |file| && R[i - r0] == file[Spot(base, i, bpl, skip)]
    {
      var k := i - r0;
      RangeSpot(offset, low, k, bpl, skip, bytesperline);
      assert W[(low + k) - 0] == file[Spot(offset, low + k, bpl, skip)];
    }
  }
}
