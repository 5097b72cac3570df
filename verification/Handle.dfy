/** fetch.go: a handle with its cache, as one reader sees it, and the stream on top of it. The
    goroutine of a fetch runs at some time before its block is waited for. */
module Handle {
  import opened Blocks
  import opened FileIndex

  datatype Error = NoPeer | PeerFailed

  /** The channel of a block's fetch. */
  datatype Channel = NoChannel | Open | Closed

  /** What Read returns; Panicked is an index out of range. */
  datatype ReadResult = Reply(data: Option<Bytes>, err: Option<Error>) | Panicked

  /** A reply without bytes arrives as nil. */
  function Received(b: Bytes): Option<Bytes> {
    if b == [] then None else Some(b)
  }

  /** The channels after the fetches of a read were started. */
  function Started(active: seq<Channel>, first: nat, end: nat): (r: seq<Channel>)
    ensures |r| == |active|
    ensures forall i :: 0 <= i < |active| ==>
      r[i] == if first <= i < end && active[i] == NoChannel then Open else active[i]
  {
    seq(|active|, i requires 0 <= i < |active| =>
      if first <= i < end && active[i] == NoChannel then Open else active[i])
  }

  /** Block i's channel after the untouched blocks from `from` up to `to` inside the file were requested. */
  function Prefetched(a: Channel, i: nat, from: nat, to: nat, bs: nat, fileSize: nat): Channel {
    if from <= i < to && i * bs < fileSize && a == NoChannel then Open else a
  }

  /** A slot is untouched, in flight, failed, empty, or holds its block. */
  ghost predicate SlotOk(content: Bytes, bs: nat, b: nat, c: Option<Bytes>, a: Channel, failed: bool) {
    && (c.Some? ==> a == Closed && c == Received(BlockOf(content, bs, b)))
    && (a == Closed && c.None? && b * bs < |content| ==> failed)
  }

  class PfHandle {
    const content: Bytes
    const bs: nat
    const prefetch: nat
    const peers: seq<string>
    /** The peers that answer at present. */
    var answering: set<string>
    const cache: array<Option<Bytes>>
    const active: array<Channel>
    var lastErr: Option<Error>

    /** Lines 105-115. */
    constructor (content: Bytes, bs: nat, prefetch: nat, peers: seq<string>, answering: set<string>)
      requires bs > 0
      ensures Valid() && this.content == content && this.bs == bs && this.prefetch == prefetch
      ensures fresh(cache) && fresh(active)
      ensures forall i :: 0 <= i < active.Length ==> active[i] == NoChannel
      ensures this.peers == peers && this.answering == answering && lastErr == None
      ensures cache.Length == active.Length == |content| / bs + 1
    {
      this.content, this.bs, this.prefetch, this.peers, this.answering := content, bs, prefetch, peers, answering;
      cache := new Option<Bytes>[SlotCount(|content|, bs)](_ => None);
      active := new Channel[SlotCount(|content|, bs)](_ => NoChannel);
      lastErr := None;
    }

    ghost predicate Valid()
      reads this`lastErr, cache, active
    {
      && bs > 0 && cache.Length == active.Length == SlotCount(|content|, bs)
      && forall i :: 0 <= i < cache.Length ==> SlotOk(content, bs, i, cache[i], active[i], lastErr.Some?)
    }

    ghost predicate Works()
      reads this`answering
    {
      exists i :: 0 <= i < |peers| && peers[i] in answering
    }

    /** Lines 153-168: the first peer that answers. */
    method RealFetch(offset: nat) returns (data: Option<Bytes>, err: Option<Error>)
      ensures err.None? <==> Works()
      ensures err.None? ==> data == Received(Slice(content, offset, bs))
      ensures err.Some? ==> data == None && err.value == if peers == [] then NoPeer else PeerFailed
    {
      var retErr := NoPeer;
      for i := 0 to |peers|
        invariant forall k :: 0 <= k < i ==> peers[k] !in answering
        invariant retErr == if i == 0 then NoPeer else PeerFailed
      {
        if peers[i] in answering {
          return Received(Slice(content, offset, bs)), None;
        }
        retErr := PeerFailed;
      }
      return None, Some(retErr);
    }

    /** Lines 138-150: the goroutine of a fetch. */
    method Complete(b: nat)
      requires Valid() && b < active.Length && active[b] == Open
      modifies cache, active, this`lastErr
      ensures Valid() && active[..] == old(active[..])[b := Closed]
      ensures Works() ==> lastErr == old(lastErr) && cache[..] == old(cache[..])[b := Received(BlockOf(content, bs, b))]
      ensures !Works() ==> cache[..] == old(cache[..])
      ensures !Works() ==> lastErr == Some(if peers == [] then NoPeer else PeerFailed)
    {
      BlockEmptyIff(content, bs, b);
      var data, err := RealFetch(b * bs);
      if err.Some? {
        lastErr := err;
      } else {
        cache[b] := data;
      }
      active[b] := Closed;
    }

    /** Line 137 and line 190 or 204: the channel is made; the goroutine runs later. */
    method Fetch(b: nat)
      requires Valid() && b < active.Length && active[b] == NoChannel
      modifies active
      ensures Valid() && active[..] == old(active[..])[b := Open]
    {
      active[b] := Open;
    }

    /** Lines 186-194. False when a block has no slot, which panics. */
    method RequestBlocks(first: nat, end: nat) returns (ok: bool, unfetched: seq<nat>)
      requires Valid() && first <= end
      modifies active
      ensures Valid() && ok == (first == end || end <= cache.Length)
      ensures ok ==> active[..] == Started(old(active[..]), first, end)
      ensures ok ==> forall b :: b in unfetched <==> first <= b < end && cache[b].None?
    {
      unfetched := [];
      var b := first;
      while b < end
        invariant first <= b <= end && (b == first || b <= cache.Length) && Valid()
        invariant active[..] == Started(old(active[..]), first, b)
        invariant forall i :: i in unfetched <==> first <= i < b && cache[i].None?
      {
        if b >= cache.Length {
          return false, [];
        }
        if cache[b].None? {
          if active[b] == NoChannel {
            Fetch(b);
          }
          unfetched := unfetched + [b];
        }
        b := b + 1;
      }
      ok := true;
    }

    /** Lines 196-199: the block before the first one, unless that is block 0. */
    method Purge(first: nat)
      requires Valid() && first < cache.Length
      modifies cache, active
      ensures Valid()
      ensures var hit := first > 1 && old(cache[first - 1]).Some?;
        && active[..] == (if hit then old(active[..])[first - 1 := NoChannel] else old(active[..]))
        && cache[..] == (if hit then old(cache[..])[first - 1 := None] else old(cache[..]))
    {
      var b := first - 1;
      if b > 0 && cache[b].Some? {
        cache[b] := None;
        active[b] := NoChannel;
      }
    }

    /** Lines 201-206: blocks from end on, as far as the file goes. */
    method Prefetch(end: nat)
      requires Valid()
      modifies active
      ensures Valid()
      ensures forall i :: 0 <= i < active.Length ==>
        active[i] == Prefetched(old(active[i]), i, end, end + prefetch, bs, |content|)
    {
      for i := 0 to prefetch
        invariant Valid()
        invariant forall k :: 0 <= k < active.Length ==>
          active[k] == Prefetched(old(active[k]), k, end, end + i, bs, |content|)
      {
        var b := end + i;
        if b * bs < |content| {
          SlotExists(|content|, bs, b);
          if cache[b].None? && active[b] == NoChannel {
            Fetch(b);
          }
        }
      }
    }

    /** Lines 209-216. */
    method Wait(unfetched: seq<nat>)
      requires Valid()
      requires forall j :: 0 <= j < |unfetched| ==> unfetched[j] < active.Length && active[unfetched[j]] != NoChannel
      modifies cache, active, this`lastErr
      ensures Valid()
      ensures forall i :: 0 <= i < active.Length ==>
        if i in unfetched && old(active[i]) == Open
        then active[i] == Closed && (Works() ==> cache[i] == Received(BlockOf(content, bs, i)))
        else active[i] == old(active[i]) && cache[i] == old(cache[i])
      ensures lastErr == old(lastErr) || (!Works() && lastErr == Some(if peers == [] then NoPeer else PeerFailed))
    {
      for k := 0 to |unfetched|
        invariant Valid()
        invariant lastErr == old(lastErr) || (!Works() && lastErr == Some(if peers == [] then NoPeer else PeerFailed))
        invariant forall i :: 0 <= i < active.Length ==>
          if i in unfetched[..k] && old(active[i]) == Open
          then active[i] == Closed && (Works() ==> cache[i] == Received(BlockOf(content, bs, i)))
          else active[i] == old(active[i]) && cache[i] == old(cache[i])
      {
        var b := unfetched[k];
        assert unfetched[..k + 1] == unfetched[..k] + [b];
        if active[b] == Open {
          Complete(b);
        }
      }
      assert unfetched[..|unfetched|] == unfetched;
    }

    /** Lines 218-228: nil as soon as a block is missing. */
    method Grab(first: nat, end: nat) returns (bufs: Option<seq<Bytes>>)
      requires Valid() && first <= end <= cache.Length
      ensures bufs.Some? <==> forall b :: first <= b < end ==> cache[b].Some?
      ensures bufs.Some? ==> bufs.value == BlocksOf(content, bs, first, end)
    {
      var got: seq<Bytes> := [];
      for b := first to end
        invariant |got| == b - first && forall i :: 0 <= i < |got| ==> got[i] == BlockOf(content, bs, first + i)
        invariant forall i :: first <= i < b ==> cache[i].Some?
      {
        if cache[b].None? {
          return None;
        }
        assert SlotOk(content, bs, b, cache[b], active[b], lastErr.Some?);
        got := got + [cache[b].value];
      }
      bufs := Some(got);
    }

    /** Lines 229-254. */
    method Join(blocks: seq<Bytes>, offset: nat, size: nat) returns (ret: Bytes)
      requires bs > 0 && blocks != []
      requires offset % bs <= |CutLast(blocks, (offset % bs + size) % bs)[0]|
      ensures ret == Assemble(blocks, offset, size, bs)
    {
      var bufs := blocks;
      var bo := offset % bs;
      var cut := (bo + size) % bs;
      if cut > 0 {
        var l := |bufs| - 1;
        if |bufs[l]| > cut {
          bufs := bufs[l := bufs[l][..cut]];
        }
      }
      assert bufs == CutLast(blocks, cut);
      bufs := bufs[0 := bufs[0][bo..]];
      ret := Joined(bufs);
    }

    /** Lines 241-249. */
    method Joined(bufs: seq<Bytes>) returns (ret: Bytes)
      ensures ret == Concat(bufs)
    {
      ret := [];
      for i := 0 to |bufs|
        invariant ret == Concat(bufs[..i])
      {
        assert bufs[..i + 1][..i] == bufs[..i];
        ret := ret + bufs[i];
      }
      assert bufs[..|bufs|] == bufs;
    }

    /** Every block of the range is cached or can still be fetched. */
    ghost predicate Ready(first: nat, end: nat)
      requires cache.Length == active.Length
      reads this`answering, cache, active
    {
      forall b :: first <= b < end && b < cache.Length ==> cache[b].Some? || (active[b] != Closed && Works())
    }

    /** Lines 184-216: the first lock section and the waiting. */
    method Collect(first: nat, end: nat) returns (ok: bool)
      requires Valid() && first < end && first < cache.Length
      modifies cache, active, this`lastErr
      ensures Valid() && ok == (end <= cache.Length)
      ensures lastErr == old(lastErr) || (!Works() && lastErr == Some(if peers == [] then NoPeer else PeerFailed))
      ensures ok ==> forall i :: 0 <= i < active.Length ==>
        (active[i] != NoChannel <==>
          || first <= i < end
          || (end <= i < end + prefetch && i * bs < |content|)
          || (old(active[i]) != NoChannel && !(i == first - 1 && i > 0 && old(cache[i]).Some?)))
      ensures ok ==> forall i :: first <= i < end ==> active[i] == Closed
      ensures ok && old(Ready(first, end)) ==>
        forall i :: first <= i < end ==> cache[i] == Received(BlockOf(content, bs, i))
    {
      var unfetched;
      ok, unfetched := RequestBlocks(first, end);
      if ok {
        Purge(first);
        Prefetch(end);
        assert forall j :: 0 <= j < |unfetched| ==> unfetched[j] in unfetched;
        Wait(unfetched);
      }
    }

    /** Which channels a read that does not panic leaves behind. */
    twostate predicate Moved(first: nat, end: nat)
      requires cache.Length == active.Length
      reads this, cache, active
    {
      forall i :: 0 <= i < active.Length ==>
        (active[i] != NoChannel <==>
          || first <= i < end
          || (end <= i < end + prefetch && i * bs < |content|)
          || (old(active[i]) != NoChannel && !(i == first - 1 && i > 0 && old(cache[i]).Some?)))
    }

    /** All blocks of a range start before the end of the file exactly when the last one does. */
    lemma LastBlockDecides(first: nat, end: nat)
      requires first < end
      ensures (end - 1) * bs < |content| <==> forall b :: first <= b < end ==> b * bs < |content|
    {
    }

    lemma CachedHasBytes(b: nat)
      requires Valid() && b < cache.Length
      ensures cache[b].Some? ==> b * bs < |content|
      ensures cache[b] == Received(BlockOf(content, bs, b)) && b * bs < |content| ==> cache[b].Some?
      ensures cache[b].None? && active[b] == Closed && b * bs < |content| ==> lastErr.Some?
    {
    }

    /** Lines 184-228: both lock sections and the waiting between them. */
    method CollectAndGrab(first: nat, end: nat) returns (ok: bool, bufs: Option<seq<Bytes>>)
      requires Valid() && first < end && first < cache.Length
      modifies cache, active, this`lastErr
      ensures Valid() && ok == (end <= cache.Length)
      ensures lastErr == old(lastErr) || (!Works() && lastErr == Some(if peers == [] then NoPeer else PeerFailed))
      ensures ok ==> Moved(first, end)
      ensures ok && bufs.Some? ==> (end - 1) * bs < |content| && bufs.value == BlocksOf(content, bs, first, end)
      ensures ok && bufs.Some? ==> forall i :: first <= i < end ==> cache[i].Some?
      ensures ok && bufs.None? && (end - 1) * bs < |content| ==> lastErr.Some?
      ensures ok && old(Ready(first, end)) ==> (bufs.Some? <==> (end - 1) * bs < |content|)
    {
      bufs := None;
      ok := Collect(first, end);
      if ok {
        bufs := Grab(first, end);
        CachedHasBytes(end - 1);
        LastBlockDecides(first, end);
        forall b | first <= b < end
          ensures cache[b].Some? ==> b * bs < |content|
          ensures cache[b] == Received(BlockOf(content, bs, b)) && b * bs < |content| ==> cache[b].Some?
          ensures cache[b].None? && b * bs < |content| ==> lastErr.Some?
        {
          CachedHasBytes(b);
        }
      }
    }

    /** Lines 173-255. */
    method Read(offset: nat, size: nat) returns (r: ReadResult)
      requires Valid()
      modifies cache, active, this`lastErr
      ensures Valid()
      ensures offset >= |content| ==>
        r == Reply(None, None) && cache[..] == old(cache[..]) && active[..] == old(active[..])
      ensures r.Panicked? <==> OutOfRange(|content|, bs, offset, size)
      ensures r.Reply? && offset < |content| && r.data.None? ==> r.err == lastErr
      ensures lastErr == old(lastErr) || (!Works() && lastErr == Some(if peers == [] then NoPeer else PeerFailed))
      ensures r.Reply? && r.data.Some? ==>
        r == Reply(Some(Slice(content, offset, size)), None) && Supported(|content|, bs, offset, size)
      ensures r == Reply(None, None) && offset < |content| ==> !Supported(|content|, bs, offset, size)
      ensures offset < |content| && old(Ready(First(offset, bs), End(offset, size, bs))) ==>
        (r == Reply(Some(Slice(content, offset, size)), None) <==> Supported(|content|, bs, offset, size))
      ensures offset < |content| && r.Reply? ==> Moved(First(offset, bs), End(offset, size, bs))
      ensures offset < |content| && r.Reply? && r.data.Some? ==>
        forall i :: First(offset, bs) <= i < End(offset, size, bs) ==> i < cache.Length && cache[i].Some?
    {
      if offset >= |content| {
        return Reply(None, None);
      }
      var first, end := First(offset, bs), End(offset, size, bs);
      SupportedRange(|content|, bs, offset, size);
      if first == end {
        return Panicked;
      }
      var ok, bufs := CollectAndGrab(first, end);
      if !ok {
        return Panicked;
      }
      if bufs.None? {
        return Reply(None, lastErr);
      }
      JoinExact(content, bs, offset, size);
      var ret := Join(bufs.value, offset, size);
      r := Reply(Some(ret), None);
    }
  }
}
