/** fetch.go, lines 257-287: reading a handle from front to back through one buffer. */
module Stream {
  import opened Blocks
  import opened FileIndex
  import opened Handle

  /** How a stream read ends: more to come, io.EOF, an error, or a panic below. */
  datatype Status = More | Eof | Broken(err: Error) | Crashed

  class PfStream {
    const h: PfHandle
    const start: nat
    var offset: nat
    /** Everything that reads have returned. */
    ghost var delivered: Bytes
    /** The block of the last read that returned bytes. */
    ghost var block: nat

    /** Lines 264-267. */
    constructor (h: PfHandle, start: nat)
      requires h.bs > 0
      ensures this.h == h && this.start == start && offset == start && delivered == []
      ensures block == First(start, h.bs)
    {
      this.h, this.start, offset := h, start, start;
      delivered, block := [], First(start, h.bs);
    }

    /** What was delivered is the content from the start to the current offset. */
    ghost predicate Exact()
      reads this
    {
      && start <= offset && (delivered == [] || offset <= |h.content|)
      && delivered == Between(h.content, start, offset)
    }

    /** The buffer divides the block size and the start, and so the offset until the end is reached. */
    ghost predicate Aligned(len: nat)
      reads this
    {
      && len > 0 && h.bs > 0 && h.bs % len == 0 && start % len == 0
      && (offset % len == 0 || offset >= |h.content|)
    }

    /** The next read has bytes to return: it starts in the file and ends within the last block. */
    ghost predicate Due(size: nat)
      requires h.bs > 0
      reads this
    {
      offset < |h.content| && Supported(|h.content|, h.bs, offset, size)
    }

    /** The next read ends within the last block, and its blocks are cached or can still be fetched. */
    ghost predicate Answerable(size: nat)
      requires h.Valid()
      reads this, h`answering, h`lastErr, h.cache, h.active
    {
      && offset < |h.content| && Supported(|h.content|, h.bs, offset, size)
      && h.Ready(First(offset, h.bs), End(offset, size, h.bs))
    }

    /** Nothing is held yet, or the blocks held are block 0 and those from the current block up to
        the last one prefetched. */
    ghost predicate Window()
      requires h.Valid()
      reads this, h`lastErr, h.cache, h.active
    {
      || (forall i :: 0 <= i < h.active.Length ==> h.active[i] == NoChannel)
      || (&& block < h.cache.Length && h.cache[block].Some? && block * h.bs <= offset <= (block + 1) * h.bs
          && forall i :: 0 <= i < h.active.Length && h.active[i] != NoChannel ==>
               i == 0 || block <= i <= block + h.prefetch)
    }

    /** At most prefetch + 2 blocks are cached or in flight, however long the file is. */
    lemma WindowIsSmall()
      requires h.Valid() && Window()
      ensures |set i | 0 <= i < h.active.Length && h.active[i] != NoChannel| <= h.prefetch + 2
    {
      var held := set i | 0 <= i < h.active.Length && h.active[i] != NoChannel;
      if h.active.Length > block && h.active[block] != NoChannel && held != {} {
        var all := {0} + Interval(block, h.prefetch + 1);
        if held <= all {
          AtMost(held, all);
        }
      }
    }

    /** Lines 270-273. */
    method Ask(size: nat) returns (data: Bytes, st: Status)
      requires h.Valid()
      modifies h.cache, h.active, h`lastErr
      ensures h.Valid() && st != Eof && (st != More ==> data == [])
      ensures st.Broken? ==> offset < |h.content| && h.lastErr == Some(st.err)
      ensures data == [] || (data == Slice(h.content, offset, size) && Supported(|h.content|, h.bs, offset, size))
      ensures st == Crashed <==> OutOfRange(|h.content|, h.bs, offset, size)
      ensures st == More && Due(size) ==> data == Slice(h.content, offset, size)
      ensures old(Answerable(size)) ==> st == More && data == Slice(h.content, offset, size)
      ensures offset >= |h.content| ==>
        data == [] && h.cache[..] == old(h.cache[..]) && h.active[..] == old(h.active[..])
      ensures data != [] ==> h.Moved(First(offset, h.bs), End(offset, size, h.bs))
      ensures data != [] ==>
        forall i :: First(offset, h.bs) <= i < End(offset, size, h.bs) ==> i < h.cache.Length && h.cache[i].Some?
    {
      if offset < |h.content| {
        SupportedRange(|h.content|, h.bs, offset, size);
      }
      var r := h.Read(offset, size);
      if r.Panicked? {
        return [], Crashed;
      }
      if r.err.Some? {
        return [], Broken(r.err.value);
      }
      return if r.data.Some? then r.data.value else [], More;
    }

    lemma NextIsExact(size: nat, data: Bytes)
      requires Exact() && (data == [] || data == Slice(h.content, offset, size))
      ensures |data| <= size
      ensures delivered + data == Between(h.content, start, offset + |data|)
      ensures data == [] || offset + |data| <= |h.content|
      ensures data == Slice(h.content, offset, size) && |data| < size ==> offset + |data| >= |h.content|
    {
      if data != [] {
        BetweenJoins(h.content, start, offset, offset + |data|);
      }
    }

    lemma NextIsAligned(size: nat, data: Bytes)
      requires Aligned(size) && offset < |h.content| && data == Slice(h.content, offset, size)
      ensures |data| < size ==> offset + |data| >= |h.content|
      ensures (offset + |data|) % size == 0 || offset + |data| >= |h.content|
      ensures var first := First(offset, h.bs); first * h.bs <= offset + |data| <= (first + 1) * h.bs
    {
      AlignedFits(h.bs, size, offset);
    }

    /** Lines 275-279. */
    method Deliver(size: nat, data: Bytes) returns (st: Status)
      requires h.bs > 0 && Exact() && (data == [] || data == Slice(h.content, offset, size))
      requires Due(size) ==> data == Slice(h.content, offset, size)
      modifies this
      ensures Exact() && |data| <= size && st == if |data| < size then Eof else More
      ensures offset == old(offset) + |data| && delivered == old(delivered) + data
      ensures block == if data != [] then First(old(offset), h.bs) else old(block)
      ensures st == Eof ==> offset >= |h.content| || !Supported(|h.content|, h.bs, offset, size)
      ensures old(Aligned(size)) ==> Aligned(size) && (st == Eof ==> offset >= |h.content|)
      ensures old(Aligned(size)) && data != [] ==> block * h.bs <= offset <= (block + 1) * h.bs
    {
      if Aligned(size) && offset < |h.content| {
        NeverStraddles(size);
      }
      NextIsExact(size, data);
      if Aligned(size) && offset < |h.content| {
        NextIsAligned(size, data);
      }
      if data != [] {
        block := First(offset, h.bs);
      }
      delivered := delivered + data;
      offset := offset + |data|;
      st := if |data| < size then Eof else More;
    }

    /** Lines 269-281, up to the copy into the buffer. */
    method Advance(size: nat) returns (data: Bytes, st: Status)
      requires h.Valid() && Exact()
      modifies this, h.cache, h.active, h`lastErr
      ensures h.Valid() && Exact() && |data| <= size
      ensures offset == old(offset) + |data| && delivered == old(delivered) + data
      ensures st == More ==> |data| == size
      ensures st == Crashed <==> OutOfRange(|h.content|, h.bs, old(offset), size)
      ensures st == Eof ==> offset >= |h.content| || !Supported(|h.content|, h.bs, offset, size)
      ensures st == Crashed || st.Broken? ==> data == []
      ensures st.Broken? ==> old(offset) < |h.content| && h.lastErr == Some(st.err)
      ensures st == Crashed || st.Broken? || st == if |data| < size then Eof else More
      ensures old(Answerable(size)) ==> st == if |data| < size then Eof else More
      ensures old(Answerable(size)) ==> data == Slice(h.content, old(offset), size)
      ensures old(Aligned(size)) ==> Aligned(size) && st != Crashed && (st == Eof ==> offset >= |h.content|)
      ensures old(Aligned(size) && Window()) && (data != [] || st == Eof) ==> Window()
    {
      if Aligned(size) && offset < |h.content| {
        NeverStraddles(size);
      }
      data, st := Ask(size);
      if st != More {
        return;
      }
      st := Deliver(size, data);
      if old(Aligned(size) && Window()) && data != [] {
        WindowMoves(block);
      }
    }

    /** Lines 269-281. */
    method Read(p: array<byte>) returns (n: nat, st: Status)
      requires h.Valid() && Exact()
      modifies this, p, h.cache, h.active, h`lastErr
      ensures h.Valid() && Exact()
      ensures n <= p.Length && offset == old(offset) + n && delivered == old(delivered) + p[..n]
      ensures st == More ==> n == p.Length
      ensures st == Crashed <==> OutOfRange(|h.content|, h.bs, old(offset), p.Length)
      ensures st == Eof ==> offset >= |h.content| || !Supported(|h.content|, h.bs, offset, p.Length)
      ensures st == Crashed || st.Broken? ==> n == 0
      ensures st.Broken? ==> old(offset) < |h.content| && h.lastErr == Some(st.err)
      ensures st == Crashed || st.Broken? || st == if n < p.Length then Eof else More
      ensures old(offset) >= |h.content| ==> n == 0 && st == if p.Length > 0 then Eof else More
      ensures old(Answerable(p.Length)) ==> st == if n < p.Length then Eof else More
      ensures old(Answerable(p.Length)) ==> n == Min(p.Length, |h.content| - old(offset))
      ensures old(Aligned(p.Length)) ==> Aligned(p.Length) && st != Crashed && (st == Eof ==> offset >= |h.content|)
      ensures old(Aligned(p.Length) && Window()) && (n > 0 || st == Eof) ==> Window()
    {
      var data;
      data, st := Advance(p.Length);
      forall i | 0 <= i < |data| {
        p[i] := data[i];
      }
      n := |data|;
      assert p[..n] == data;
    }

    /** A read in the next block, or once more in this one, moves the window along. */
    twostate lemma WindowMoves(first: nat)
      requires old(h.Valid()) && h.Valid() && old(Window()) && First(old(offset), h.bs) == first == block
      requires h.Moved(first, first + 1) && first < h.cache.Length && h.cache[first].Some?
      requires first * h.bs <= offset <= (first + 1) * h.bs
      ensures Window()
    {
      var was := old(block);
      if was * h.bs <= old(offset) <= (was + 1) * h.bs {
        DivisionBounds(old(offset), h.bs);
        if first < was {
          MulMonotone(first + 1, was, h.bs);
        } else if first > was + 1 {
          MulMonotone(was + 2, first, h.bs);
          NextBlock(h.bs, was + 1);
        }
      }
    }

    lemma NeverStraddles(size: nat)
      requires Aligned(size) && offset < |h.content|
      ensures Supported(|h.content|, h.bs, offset, size)
      ensures End(offset, size, h.bs) == First(offset, h.bs) + 1 <= SlotCount(|h.content|, h.bs)
    {
      AlignedFits(h.bs, size, offset);
      WithinFileIff(|h.content|, offset, size, h.bs);
    }
  }

  function Interval(from: int, count: nat): (r: set<int>)
    ensures forall i :: i in r <==> from <= i < from + count
    ensures |r| <= count
  {
    if count == 0 then {} else Interval(from, count - 1) + {from + count - 1}
  }
}
