/** fetch.go: which blocks a read needs, and how their bytes are cut and put together. */
module Blocks {

  newtype byte = x: int | 0 <= x < 256

  type Bytes = seq<byte>

  function Min(a: int, b: int): int {
    if a < b then a else b
  }

  /** The part of the content that a peer returns for a request: at most `size` bytes from `offset`,
      less at the end of the file (server.go:238-251). */
  function Slice(content: Bytes, offset: nat, size: nat): Bytes {
    content[Min(offset, |content|)..Min(offset + size, |content|)]
  }

  function BlockOf(content: Bytes, bs: nat, b: nat): Bytes {
    Slice(content, b * bs, bs)
  }

  /** Line 107: the number of cache slots. */
  function SlotCount(fileSize: nat, bs: nat): nat
    requires bs > 0
  {
    fileSize / bs + 1
  }

  /** Line 180: the blocks of a read are First, .., End - 1. */
  function First(offset: nat, bs: nat): nat
    requires bs > 0
  {
    offset / bs
  }

  function End(offset: nat, size: nat, bs: nat): nat
    requires bs > 0
  {
    (offset + size + bs - 1) / bs
  }

  // ---------------------------------------------------------------------------------------
  // Arithmetic
  // ---------------------------------------------------------------------------------------

  lemma DivisionBounds(x: nat, bs: nat)
    requires bs > 0
    ensures x / bs * bs <= x < (x / bs + 1) * bs
    ensures x == x / bs * bs + x % bs
  {
  }

  lemma QuotientIs(x: nat, bs: nat, q: nat)
    requires bs > 0 && q * bs <= x < (q + 1) * bs
    ensures x / bs == q && x % bs == x - q * bs
  {
    DivisionBounds(x, bs);
    if x / bs < q {
      MulMonotone(x / bs + 1, q, bs);
    } else if q < x / bs {
      MulMonotone(q + 1, x / bs, bs);
    }
  }

  lemma MulMonotone(a: nat, b: nat, c: nat)
    requires a <= b
    ensures a * c <= b * c
  {
  }

  /** Rounding up: End is the least number of blocks that covers offset + size. */
  lemma EndCovers(x: nat, bs: nat)
    requires bs > 0
    ensures var e := (x + bs - 1) / bs; x <= e * bs && e * bs < x + bs && (e > 0 ==> (e - 1) * bs < x)
  {
  }

  /** A number of blocks covers x exactly when it is at least the rounded quotient. */
  lemma CoversIff(x: nat, bs: nat, e: nat)
    requires bs > 0
    ensures (x + bs - 1) / bs <= e <==> x <= e * bs
  {
    EndCovers(x, bs);
    var c := (x + bs - 1) / bs;
    if c <= e {
      MulMonotone(c, e, bs);
    } else {
      MulMonotone(e, c - 1, bs);
    }
  }

  // ---------------------------------------------------------------------------------------
  // Putting blocks together
  // ---------------------------------------------------------------------------------------

  function Concat(bufs: seq<Bytes>): Bytes {
    if bufs == [] then [] else Concat(bufs[..|bufs| - 1]) + bufs[|bufs| - 1]
  }

  /** The blocks First, .., End - 1 of the content. */
  function BlocksOf(content: Bytes, bs: nat, first: nat, end: nat): (r: seq<Bytes>)
    requires first <= end
    ensures |r| == end - first
    ensures forall i :: 0 <= i < |r| ==> r[i] == BlockOf(content, bs, first + i)
  {
    seq(end - first, i requires 0 <= i < end - first => BlockOf(content, bs, first + i))
  }

  /** The content between two offsets, as far as it goes. */
  function Between(content: Bytes, from: nat, to: nat): Bytes
    requires from <= to
  {
    content[Min(from, |content|)..Min(to, |content|)]
  }

  lemma BetweenJoins(content: Bytes, a: nat, b: nat, c: nat)
    requires a <= b <= c
    ensures Between(content, a, b) + Between(content, b, c) == Between(content, a, c)
  {
  }

  lemma NextBlock(bs: nat, b: nat)
    ensures b * bs + bs == (b + 1) * bs
  {
  }

  lemma BlockIsBetween(content: Bytes, bs: nat, b: nat)
    ensures b * bs <= (b + 1) * bs
    ensures BlockOf(content, bs, b) == Between(content, b * bs, (b + 1) * bs)
  {
    NextBlock(bs, b);
  }

  lemma ConcatOne(bufs: seq<Bytes>, content: Bytes, a: nat, b: nat, c: nat)
    requires bufs != [] && a <= b <= c
    requires Concat(bufs[..|bufs| - 1]) == Between(content, a, b) && bufs[|bufs| - 1] == Between(content, b, c)
    ensures Concat(bufs) == Between(content, a, c)
  {
    BetweenJoins(content, a, b, c);
  }

  lemma BlocksOfInit(content: Bytes, bs: nat, first: nat, end: nat)
    requires first < end
    ensures BlocksOf(content, bs, first, end)[..end - first - 1] == BlocksOf(content, bs, first, end - 1)
  {
  }

  /** Only a block that starts before the end of the file has bytes. */
  lemma BlockEmptyIff(content: Bytes, bs: nat, b: nat)
    requires bs > 0
    ensures BlockOf(content, bs, b) == [] <==> b * bs >= |content|
  {
  }

  lemma LastBlock(content: Bytes, bs: nat, first: nat, end: nat)
    requires first < end
    ensures (end - 1) * bs <= end * bs
    ensures BlocksOf(content, bs, first, end)[end - first - 1] == Between(content, (end - 1) * bs, end * bs)
  {
    BlockIsBetween(content, bs, end - 1);
    assert (end - 1 + 1) * bs == end * bs;
  }

  lemma {:induction false} ConcatOfBlocks(content: Bytes, bs: nat, first: nat, end: nat)
    requires first <= end
    ensures first * bs <= end * bs
    ensures Concat(BlocksOf(content, bs, first, end)) == Between(content, first * bs, end * bs)
    decreases end
  {
    MulMonotone(first, end, bs);
    if first < end {
      MulMonotone(first, end - 1, bs);
      ConcatOfBlocks(content, bs, first, end - 1);
      BlocksOfInit(content, bs, first, end);
      LastBlock(content, bs, first, end);
      ConcatOne(BlocksOf(content, bs, first, end), content, first * bs, (end - 1) * bs, end * bs);
    }
  }

  lemma {:induction false} DropFront(bufs: seq<Bytes>, n: nat)
    requires bufs != [] && n <= |bufs[0]|
    ensures n <= |Concat(bufs)| && Concat(bufs[0 := bufs[0][n..]]) == Concat(bufs)[n..]
  {
    var trimmed, last := bufs[0 := bufs[0][n..]], |bufs| - 1;
    if last == 0 {
      assert bufs[..0] == [] && trimmed[..0] == [];
      assert Concat(bufs) == bufs[0] && Concat(trimmed) == trimmed[0];
    } else {
      DropFront(bufs[..last], n);
      assert trimmed[..last] == bufs[..last][0 := bufs[0][n..]];
      assert Concat(trimmed) == Concat(bufs[..last])[n..] + bufs[last];
      assert (Concat(bufs[..last]) + bufs[last])[n..] == Concat(bufs[..last])[n..] + bufs[last];
    }
  }

  /** Lines 229-249: the last block is cut, then the first is trimmed, then all are joined. */
  function Assemble(bufs: seq<Bytes>, offset: nat, size: nat, bs: nat): Bytes
    requires bs > 0 && bufs != [] && offset % bs <= |CutLast(bufs, (offset % bs + size) % bs)[0]|
  {
    var cutOff := CutLast(bufs, (offset % bs + size) % bs);
    Concat(cutOff[0 := cutOff[0][offset % bs..]])
  }

  function CutLast(bufs: seq<Bytes>, cut: nat): (r: seq<Bytes>)
    requires bufs != []
    ensures |r| == |bufs|
  {
    var l := |bufs| - 1;
    if cut > 0 && |bufs[l]| > cut then bufs[l := bufs[l][..cut]] else bufs
  }

  lemma CutBlock(content: Bytes, lo: nat, hi: nat, x: nat)
    requires lo < x <= hi && lo <= |content|
    ensures var buf, cut := Between(content, lo, hi), if x == hi then 0 else x - lo;
      Between(content, lo, x) == if cut > 0 && |buf| > cut then buf[..cut] else buf
  {
    var buf := Between(content, lo, hi);
    if x < hi && |buf| > x - lo {
      assert buf[..x - lo] == Between(content, lo, x);
    } else {
      assert Min(x, |content|) == Min(hi, |content|);
    }
  }

  /** The cut block, joined with those before it, ends where the read ends. */
  lemma CutConcat(content: Bytes, bufs: seq<Bytes>, start: nat, lo: nat, hi: nat, x: nat)
    requires bufs != [] && start <= lo < x <= hi && lo <= |content|
    requires Concat(bufs[..|bufs| - 1]) == Between(content, start, lo)
    requires bufs[|bufs| - 1] == Between(content, lo, hi)
    ensures Concat(CutLast(bufs, if x == hi then 0 else x - lo)) == Between(content, start, x)
  {
    var cutOff := CutLast(bufs, if x == hi then 0 else x - lo);
    CutBlock(content, lo, hi, x);
    assert cutOff[..|bufs| - 1] == bufs[..|bufs| - 1];
    ConcatOne(cutOff, content, start, lo, x);
  }

  /** The blocks of a range, all but the last one joined. */
  lemma RangeParts(content: Bytes, bs: nat, first: nat, end: nat)
    requires first < end
    ensures first * bs <= (end - 1) * bs <= end * bs
    ensures var bufs := BlocksOf(content, bs, first, end);
      && Concat(bufs[..|bufs| - 1]) == Between(content, first * bs, (end - 1) * bs)
      && bufs[|bufs| - 1] == Between(content, (end - 1) * bs, end * bs)
  {
    MulMonotone(first, end - 1, bs);
    ConcatOfBlocks(content, bs, first, end - 1);
    BlocksOfInit(content, bs, first, end);
    LastBlock(content, bs, first, end);
  }

  lemma TrimmedIsSlice(content: Bytes, start: nat, offset: nat, x: nat)
    requires start <= offset <= x && offset <= |content|
    ensures offset - start <= |Between(content, start, x)|
    ensures Between(content, start, x)[offset - start..] == Slice(content, offset, x - offset)
  {
  }

  /** A read of at least one byte whose blocks all start before the end of the file is answered
      with exactly the requested part of the content. */
  lemma AssembleExact(content: Bytes, bs: nat, offset: nat, size: nat)
    requires bs > 0 && size > 0 && offset < |content|
    requires (End(offset, size, bs) - 1) * bs < |content|
    ensures First(offset, bs) < End(offset, size, bs)
    ensures var bufs := BlocksOf(content, bs, First(offset, bs), End(offset, size, bs));
      && offset % bs <= |CutLast(bufs, (offset % bs + size) % bs)[0]|
      && Assemble(bufs, offset, size, bs) == Slice(content, offset, size)
  {
    var first, end := First(offset, bs), End(offset, size, bs);
    RangeNotEmpty(offset, size, bs);
    FirstBlockLongEnough(content, bs, offset, size);
    CutIs(offset, size, bs);
    RangeParts(content, bs, first, end);
    DivisionBounds(offset, bs);
    AssembleParts(content, BlocksOf(content, bs, first, end), first * bs, (end - 1) * bs, end * bs,
      offset, size, bs);
  }

  lemma AssembleParts(content: Bytes, bufs: seq<Bytes>, start: nat, lo: nat, hi: nat, offset: nat, size: nat, bs: nat)
    requires bs > 0 && bufs != [] && start <= lo < offset + size <= hi && lo <= |content|
    requires start <= offset <= |content| && offset % bs == offset - start
    requires Concat(bufs[..|bufs| - 1]) == Between(content, start, lo)
    requires bufs[|bufs| - 1] == Between(content, lo, hi)
    requires (offset % bs + size) % bs == if offset + size == hi then 0 else offset + size - lo
    requires offset % bs <= |CutLast(bufs, (offset % bs + size) % bs)[0]|
    ensures Assemble(bufs, offset, size, bs) == Slice(content, offset, size)
  {
    CutConcat(content, bufs, start, lo, hi, offset + size);
    DropFront(CutLast(bufs, (offset % bs + size) % bs), offset % bs);
    TrimmedIsSlice(content, start, offset, offset + size);
  }

  lemma RangeNotEmpty(offset: nat, size: nat, bs: nat)
    requires bs > 0 && size > 0
    ensures First(offset, bs) < End(offset, size, bs)
  {
  }

  /** Line 230: the cut is the distance of the read's end from the start of the last block, or 0
      when the read ends with it. */
  lemma CutIs(offset: nat, size: nat, bs: nat)
    requires bs > 0 && size > 0
    ensures var x, end := offset + size, End(offset, size, bs);
      && end > 0 && (end - 1) * bs < x <= end * bs
      && (offset % bs + size) % bs == if x == end * bs then 0 else x - (end - 1) * bs
  {
    var x, end, first := offset + size, End(offset, size, bs), First(offset, bs);
    EndCovers(x, bs);
    RangeNotEmpty(offset, size, bs);
    DivisionBounds(offset, bs);
    NextBlock(bs, end - 1);
    assert offset % bs + size == x - first * bs;
    assert (end - 1 - first) * bs == (end - 1) * bs - first * bs;
    assert (end - first) * bs == end * bs - first * bs;
    if x == end * bs {
      QuotientIs(x - first * bs, bs, end - first);
    } else {
      QuotientIs(x - first * bs, bs, end - 1 - first);
    }
  }

  lemma FirstBlockLongEnough(content: Bytes, bs: nat, offset: nat, size: nat)
    requires bs > 0 && size > 0 && offset < |content| && First(offset, bs) < End(offset, size, bs)
    ensures var bufs := BlocksOf(content, bs, First(offset, bs), End(offset, size, bs));
      offset % bs <= |CutLast(bufs, (offset % bs + size) % bs)[0]|
  {
    var first, end := First(offset, bs), End(offset, size, bs);
    var bufs := BlocksOf(content, bs, first, end);
    DivisionBounds(offset, bs);
    CutIs(offset, size, bs);
    assert |bufs[0]| == |BlockOf(content, bs, first)|;
    assert |bufs[0]| > offset % bs;
    if end == first + 1 {
      NextBlock(bs, first);
    }
  }

  // ---------------------------------------------------------------------------------------
  // Reads that end within the last block of the file
  // ---------------------------------------------------------------------------------------

  /** The file size, rounded up to whole blocks. */
  function RoundUp(fileSize: nat, bs: nat): nat
    requires bs > 0
  {
    (fileSize + bs - 1) / bs * bs
  }

  /** The last block of a read starts before the end of the file exactly when the read ends within
      the rounded size; then every block has a cache slot. */
  lemma WithinFileIff(fileSize: nat, offset: nat, size: nat, bs: nat)
    requires bs > 0 && offset < fileSize && End(offset, size, bs) > 0
    ensures (End(offset, size, bs) - 1) * bs < fileSize <==> offset + size <= RoundUp(fileSize, bs)
    ensures (End(offset, size, bs) - 1) * bs < fileSize ==> End(offset, size, bs) <= SlotCount(fileSize, bs)
  {
    var e := End(offset, size, bs);
    CoversIff(offset + size, bs, (fileSize + bs - 1) / bs);
    CoversIff(fileSize, bs, e - 1);
    DivisionBounds(fileSize, bs);
    if e > SlotCount(fileSize, bs) {
      MulMonotone(fileSize / bs + 1, e - 1, bs);
    }
  }

  /** A read of no bytes touches a block exactly when it starts inside one. */
  lemma EmptyRead(offset: nat, bs: nat)
    requires bs > 0
    ensures End(offset, 0, bs) == First(offset, bs) + if offset % bs == 0 then 0 else 1
  {
    DivisionBounds(offset, bs);
    var q, r := offset / bs, offset % bs;
    if r == 0 {
      QuotientIs(offset + bs - 1, bs, q);
    } else {
      assert (q + 2) * bs == (q + 1) * bs + bs;
      QuotientIs(offset + bs - 1, bs, q + 1);
    }
  }

  /** A read of no bytes from inside a block gives no bytes. */
  lemma EmptyReadIsEmpty(content: Bytes, bs: nat, offset: nat)
    requires bs > 0 && offset < |content| && offset % bs != 0
    ensures First(offset, bs) < End(offset, 0, bs)
    ensures var bufs := BlocksOf(content, bs, First(offset, bs), End(offset, 0, bs));
      && offset % bs <= |CutLast(bufs, (offset % bs + 0) % bs)[0]|
      && Assemble(bufs, offset, 0, bs) == Slice(content, offset, 0)
  {
    EmptyRead(offset, bs);
    DivisionBounds(offset, bs);
    NextBlock(bs, First(offset, bs));
    QuotientIs(offset % bs, bs, 0);
    var bufs := BlocksOf(content, bs, First(offset, bs), End(offset, 0, bs));
    CutToNothing(bufs, offset, bs);
  }

  lemma CutToNothing(bufs: seq<Bytes>, offset: nat, bs: nat)
    requires bs > 0 && |bufs| == 1 && |bufs[0]| > offset % bs > 0 && (offset % bs + 0) % bs == offset % bs
    ensures offset % bs <= |CutLast(bufs, (offset % bs + 0) % bs)[0]|
    ensures Assemble(bufs, offset, 0, bs) == []
  {
    var bo := offset % bs;
    var cutOff := CutLast(bufs, bo);
    assert |cutOff[0]| == bo;
    var trimmed := cutOff[0 := cutOff[0][bo..]];
    assert trimmed[..0] == [] && trimmed[0] == [];
    assert Concat(trimmed) == Concat(trimmed[..0]) + trimmed[0];
  }

  /** A block that starts before the end of the file has a slot. */
  lemma SlotExists(fileSize: nat, bs: nat, b: nat)
    requires bs > 0 && b * bs < fileSize
    ensures b < SlotCount(fileSize, bs)
  {
  }

  /** A read must end within the last block of the file, and one of no bytes must not start at a
      block boundary. */
  predicate Supported(fileSize: nat, bs: nat, offset: nat, size: nat)
    requires bs > 0
  {
    offset + size <= RoundUp(fileSize, bs) && (size > 0 || offset % bs != 0)
  }

  /** A read that indexes outside its blocks or outside the cache. */
  predicate OutOfRange(fileSize: nat, bs: nat, offset: nat, size: nat)
    requires bs > 0
  {
    offset < fileSize
    && (First(offset, bs) == End(offset, size, bs) || End(offset, size, bs) > SlotCount(fileSize, bs))
  }

  /** In offsets: the read has no bytes and starts at a block boundary, or it ends beyond the cache. */
  lemma OutOfRangeIs(fileSize: nat, bs: nat, offset: nat, size: nat)
    requires bs > 0
    ensures OutOfRange(fileSize, bs, offset, size) <==>
      offset < fileSize && ((size == 0 && offset % bs == 0) || offset + size > (fileSize / bs + 1) * bs)
  {
    CoversIff(offset + size, bs, fileSize / bs + 1);
    if size > 0 {
      RangeNotEmpty(offset, size, bs);
    } else {
      EmptyRead(offset, bs);
    }
  }

  /** Supported reads are those that need a block, and no block beyond the end of the file. */
  lemma SupportedRange(fileSize: nat, bs: nat, offset: nat, size: nat)
    requires bs > 0 && offset < fileSize
    ensures var first, end := First(offset, bs), End(offset, size, bs);
      && first < SlotCount(fileSize, bs)
      && (Supported(fileSize, bs, offset, size) <==> first < end && (end - 1) * bs < fileSize)
      && (Supported(fileSize, bs, offset, size) ==> end <= SlotCount(fileSize, bs))
      && first <= end && (first == end <==> size == 0 && offset % bs == 0)
  {
    DivisionBounds(offset, bs);
    SlotExists(fileSize, bs, First(offset, bs));
    if size > 0 {
      RangeNotEmpty(offset, size, bs);
    } else {
      EmptyRead(offset, bs);
    }
    if End(offset, size, bs) > 0 {
      WithinFileIff(fileSize, offset, size, bs);
    }
  }

  /** The answer to a supported read. */
  lemma JoinExact(content: Bytes, bs: nat, offset: nat, size: nat)
    requires bs > 0 && offset < |content| && Supported(|content|, bs, offset, size)
    ensures First(offset, bs) < End(offset, size, bs)
    ensures var blocks := BlocksOf(content, bs, First(offset, bs), End(offset, size, bs));
      && offset % bs <= |CutLast(blocks, (offset % bs + size) % bs)[0]|
      && Assemble(blocks, offset, size, bs) == Slice(content, offset, size)
  {
    SupportedRange(|content|, bs, offset, size);
    if size > 0 {
      AssembleExact(content, bs, offset, size);
    } else {
      EmptyReadIsEmpty(content, bs, offset);
    }
  }

  // ---------------------------------------------------------------------------------------
  // Reads that never straddle a block
  // ---------------------------------------------------------------------------------------

  lemma MultipleOf(x: nat, m: nat) returns (q: nat)
    requires m > 0 && x % m == 0
    ensures x == q * m
  {
    DivisionBounds(x, m);
    q := x / m;
  }

  /** When the buffer divides the block and the offset, the read stays inside one block, and the
      next offset is again a multiple of the buffer. */
  lemma AlignedFits(bs: nat, len: nat, offset: nat)
    requires bs > 0 && len > 0 && bs % len == 0 && offset % len == 0
    ensures End(offset, len, bs) == First(offset, bs) + 1
    ensures (offset + len) % len == 0
    ensures First(offset, bs) * bs <= offset && offset + len <= (First(offset, bs) + 1) * bs
  {
    var m := MultipleOf(bs, len);
    var t := MultipleOf(offset, len);
    var q := First(offset, bs);
    DivisionBounds(offset, bs);
    NextBlock(bs, q);
    assert (q + 1) * bs == (q + 1) * m * len by { MulAssociates(q + 1, m, len); }
    if (q + 1) * m < t + 1 {
      MulMonotone((q + 1) * m, t, len);
    }
    MulMonotone(t + 1, (q + 1) * m, len);
    NextBlock(len, t);
    QuotientIs(offset + len, len, t + 1);
    CoversIff(offset + len, bs, q + 1);
    RangeNotEmpty(offset, len, bs);
  }

  lemma MulAssociates(a: nat, b: nat, c: nat)
    ensures a * (b * c) == a * b * c
  {
  }
}
