/** SynchronousGenericOutput: elements are collected in a fixed-size
    buffer and written to the output stream whenever the buffer fills, and
    on flush. The stream is the sequence of elements it has accepted from
    this object together with its good/bad state; it accepts at most
    `capacity` elements in all (a full device), and a write that does not
    fit, or any write once the stream has failed, fails and leaves its
    contents as they were. */
module SyncOutput {
  import opened Base

  /** The observable state: what the stream holds, whether it is still
      good, and the elements waiting in the buffer. */
  datatype Out<T> = Out(data: seq<T>, good: bool, buf: seq<T>)

  /** writeBuffer: the buffered elements are written and the buffer is
      emptied; a failed write marks the stream bad and leaves the buffer. */
  function WriteOut<T>(o: Out<T>, capacity: nat): (r: Out<T>)
    ensures r.data + r.buf == o.data + o.buf
    ensures r.good ==> r.buf == [] && r.data == o.data + o.buf
    ensures !r.good ==> r.data == o.data && r.buf == o.buf
    ensures r.good <==> o.good && |o.data| + |o.buf| <= capacity
  {
    if o.good && |o.data| + |o.buf| <= capacity then Out(o.data + o.buf, true, [])
    else Out(o.data, false, o.buf)
  }

  /** put(c) with a buffer of size L: store c, and write the buffer out
      once it is full. */
  function PutOne<T>(o: Out<T>, c: T, L: nat, capacity: nat): Out<T>
    requires |o.buf| < L
  {
    var b := Out(o.data, o.good, o.buf + [c]);
    if |b.buf| == L then WriteOut(b, capacity) else b
  }

  /** The elements put one at a time, until a write of the full buffer
      fails (the exception ends the sequence of puts). */
  function PutMany<T>(o: Out<T>, xs: seq<T>, L: nat, capacity: nat): Out<T>
    requires |o.buf| <= L
    decreases |xs|
  {
    if |xs| == 0 || |o.buf| == L then o
    else
      var o' := PutOne(o, xs[0], L, capacity);
      PutMany(o', xs[1..], L, capacity)
  }

  /** A put fails exactly when it fills the buffer and the stream cannot
      take the full buffer; otherwise the buffer is not full after it. */
  lemma PutOneFull<T>(o: Out<T>, c: T, L: nat, capacity: nat)
    requires |o.buf| < L
    ensures var r := PutOne(o, c, L, capacity);
            |r.buf| <= L &&
            (|r.buf| == L <==> |o.buf| + 1 == L && !(o.good && |o.data| + L <= capacity))
  {
  }

  /** Nothing put is lost or reordered: the stream followed by the buffer
      always extends what was there by the elements consumed, and by all of
      them when the puts end with a buffer that is not full. */
  lemma {:induction false} PutManyContents<T>(o: Out<T>, xs: seq<T>, L: nat, capacity: nat)
    requires |o.buf| <= L
    ensures var r := PutMany(o, xs, L, capacity);
            |r.buf| <= L &&
            r.data + r.buf <= o.data + o.buf + xs &&
            (|r.buf| < L ==> r.data + r.buf == o.data + o.buf + xs)
    decreases |xs|
  {
    if |xs| > 0 && |o.buf| < L {
      var o' := PutOne(o, xs[0], L, capacity);
      PutManyContents(o', xs[1..], L, capacity);
      assert o'.data + o'.buf == o.data + o.buf + [xs[0]];
      assert o.data + o.buf + [xs[0]] + xs[1..] == o.data + o.buf + xs;
    } else if |xs| == 0 {
      assert o.data + o.buf + xs == o.data + o.buf;
    }
  }

  /** Putting the first k elements, as long as they do not overfill the
      buffer, is copying them into it, then writing it out if they fill
      it exactly. */
  lemma {:induction false} PutManyChunk<T>(o: Out<T>, xs: seq<T>, k: nat, L: nat, capacity: nat)
    requires |o.buf| < L && 0 < k <= |xs| && |o.buf| + k <= L
    ensures var filled := Out(o.data, o.good, o.buf + xs[..k]);
            PutMany(o, xs, L, capacity) ==
            PutMany(if |filled.buf| == L then WriteOut(filled, capacity) else filled, xs[k..], L, capacity)
    decreases k
  {
    var o' := PutOne(o, xs[0], L, capacity);
    if k == 1 {
      assert xs[..1] == [xs[0]];
    } else {
      PutManyChunk(o', xs[1..], k - 1, L, capacity);
      assert o.buf + [xs[0]] + xs[1..][..k - 1] == o.buf + xs[..k];
      assert xs[1..][k - 1..] == xs[k..];
    }
  }

  /** Elements put into a fresh buffer and then flushed all reach the
      stream, in order, when every write succeeds. */
  lemma PutsThenFlush<T>(xs: seq<T>, L: nat, capacity: nat)
    requires L > 0
    ensures var r := WriteOut(PutMany(Out([], true, []), xs, L, capacity), capacity);
            r.good <==> |xs| <= capacity
    ensures var r := WriteOut(PutMany(Out([], true, []), xs, L, capacity), capacity);
            r.good ==> r.data == xs && r.buf == []
  {
    var p := PutMany(Out([], true, []), xs, L, capacity);
    PutManyContents(Out([], true, []), xs, L, capacity);
    assert [] + [] + xs == xs;
    PutManyStaysBelow(Out([], true, []), xs, L, capacity);
    if |p.buf| == L {
      PutManyFailed(Out([], true, []), xs, L, capacity);
    }
  }

  /** With a good stream and a buffer that is not full, later puts either
      keep the stream good or fill the buffer on a failed write. */
  lemma {:induction false} PutManyStaysBelow<T>(o: Out<T>, xs: seq<T>, L: nat, capacity: nat)
    requires |o.buf| < L && o.good
    ensures var r := PutMany(o, xs, L, capacity);
            |r.buf| == L <==> !r.good
    decreases |xs|
  {
    if |xs| > 0 {
      var o' := PutOne(o, xs[0], L, capacity);
      if o'.good {
        PutManyStaysBelow(o', xs[1..], L, capacity);
      }
    }
  }

  /** A failed run of puts from a good stream stops at a write that did
      not fit: more elements were put than the stream can take. */
  lemma {:induction false} PutManyFailed<T>(o: Out<T>, xs: seq<T>, L: nat, capacity: nat)
    requires |o.buf| < L && o.good
    requires !PutMany(o, xs, L, capacity).good
    ensures |o.data| + |o.buf| + |xs| > capacity
    decreases |xs|
  {
    var o' := PutOne(o, xs[0], L, capacity);
    if o'.good {
      PutManyFailed(o', xs[1..], L, capacity);
    }
  }

  class SynchronousGenericOutput<T(0)> {
    /** The buffer B; pa is index 0 and pe is B.Length. */
    const B: array<T>
    /** pc - pa: the number of buffered elements. */
    var pc: nat
    var datawrittentofile: nat
    /** What the output stream W holds, and whether it is still good. */
    var stream: seq<T>
    var good: bool
    /** How many elements W accepts in all before it fails. */
    const capacity: nat
    /** sizeof(data_type). */
    const elemSize: nat

    ghost predicate Valid()
      reads this
    {
      0 < B.Length && pc <= B.Length && datawrittentofile == |stream|
    }

    function State(): Out<T>
      reads this, B
      requires Valid()
    {
      Out(stream, good, B[..pc])
    }

    /** The constructor by output stream: an empty buffer of bufsize
        elements over a stream that is good or not. */
    constructor(bufsize: nat, elemSize: nat, capacity: nat, streamGood: bool)
      requires bufsize > 0
      ensures Valid() && fresh(B) && B.Length == bufsize
      ensures State() == Out([], streamGood, [])
      ensures this.elemSize == elemSize && this.capacity == capacity
    {
      B := new T[bufsize];
      pc := 0;
      datawrittentofile := 0;
      stream := [];
      good := streamGood;
      this.elemSize := elemSize;
      this.capacity := capacity;
    }

    /** writeBuffer: write the buffered elements, count them and empty the
        buffer; a failed write is an error and changes nothing else. */
    method WriteBuffer() returns (ok: bool)
      requires Valid()
      modifies this
      ensures Valid()
      ensures State() == WriteOut(old(State()), capacity)
      ensures ok == good
    {
      if good && |stream| + pc <= capacity {
        stream := stream + B[..pc];
        datawrittentofile := datawrittentofile + pc;
        pc := 0;
        ok := true;
      } else {
        good := false;
        ok := false;
      }
    }

    /** flush: write the buffer out, then flush the stream; either failing
        is an error. */
    method Flush() returns (ok: bool)
      requires Valid()
      modifies this
      ensures Valid()
      ensures State() == WriteOut(old(State()), capacity)
      ensures ok == good
    {
      ok := WriteBuffer();
    }

    /** put(c): store c and write the buffer out when it is full. It fails
        only when that write fails, leaving the buffer full. */
    method Put(c: T) returns (ok: bool)
      requires Valid() && pc < B.Length
      modifies this, B
      ensures Valid()
      ensures State() == PutOne(old(State()), c, B.Length, capacity)
      ensures ok <==> pc < B.Length
    {
      B[pc] := c;
      pc := pc + 1;
      assert B[..pc] == old(B[..pc]) + [c];
      if pc == B.Length {
        ok := WriteBuffer();
      } else {
        ok := true;
      }
    }

    /** put(A, n): copy the n elements in chunks of what fits in the
        buffer, writing it out whenever it fills; the same as n single
        puts. */
    method PutArray(A: seq<T>, n: nat) returns (ok: bool)
      requires Valid() && pc < B.Length && n <= |A|
      modifies this, B
      ensures Valid()
      ensures State() == PutMany(old(State()), A[..n], B.Length, capacity)
      ensures ok <==> pc < B.Length
    {
      var i := 0;
      while i < n
        invariant i <= n && Valid() && pc < B.Length
        invariant PutMany(old(State()), A[..n], B.Length, capacity) == PutMany(State(), A[i..n], B.Length, capacity)
      {
        var space := B.Length - pc;
        var towrite := if space < n - i then space else n - i;
        ghost var before := State();
        CopyChunk(A, i, towrite);
        PutManyChunk(before, A[i..n], towrite, B.Length, capacity);
        assert A[i..n][..towrite] == A[i..i + towrite];
        assert A[i..n][towrite..] == A[i + towrite..n];
        i := i + towrite;
        if pc == B.Length {
          ok := WriteBuffer();
          if !ok {
            assert PutMany(State(), A[i..n], B.Length, capacity) == State();
            return;
          }
        }
      }
      ok := true;
    }

    /** std::copy of A[i..i+k] to the buffer at pc, and pc advanced. */
    method CopyChunk(A: seq<T>, i: nat, k: nat)
      requires Valid() && i + k <= |A| && pc + k <= B.Length
      modifies this, B
      ensures Valid()
      ensures State() == Out(old(stream), old(good), old(B[..pc]) + A[i..i + k])
    {
      ghost var prefix := B[..pc];
      for j := 0 to k
        invariant Valid() && pc == old(pc) && stream == old(stream) && good == old(good)
        invariant B[..pc + j] == prefix + A[i..i + j]
      {
        B[pc + j] := A[i + j];
        assert B[..pc + j + 1] == B[..pc + j] + [A[i + j]];
        assert A[i..i + j + 1] == A[i..i + j] + [A[i + j]];
      }
      pc := pc + k;
    }

    /** getWrittenWords: the elements written to the stream plus those
        still buffered. */
    function GetWrittenWords(): (r: nat)
      reads this, B
      requires Valid()
      ensures r == |State().data| + |State().buf|
    {
      datawrittentofile + pc
    }

    /** getWrittenBytes: the written words times the element size. */
    function GetWrittenBytes(): (r: nat)
      reads this, B
      requires Valid()
      ensures r == (|State().data| + |State().buf|) * elemSize
    {
      GetWrittenWords() * elemSize
    }
  }
}
