/** fetch.go: the block cache under any number of readers and fetches. One step is one lock section
    of pfHandle.Read, the passing of one wait, or the completion of one fetch. */
module FetchProtocol {
  import opened Blocks
  import opened FileIndex

  datatype Config = Config(content: Bytes, bs: nat, prefetch: nat)

  /** Nil is a nil slice together with lastErr, which `err` says was set. */
  datatype Result = Data(bytes: Bytes) | Nil(err: bool) | Interrupted

  datatype Reader =
    | Waiting(offset: nat, size: nat, chans: seq<nat>)
    | Returned(offset: nat, size: nat, result: Result)

  /** Channels are numbered in the order of their making. `closed` counts how often each was closed,
      and `inflight` maps the channel of each running fetch to its block. */
  datatype State = State(
    cache: seq<Option<Bytes>>, active: seq<Option<nat>>, closed: multiset<nat>, inflight: map<nat, nat>,
    next: nat, failed: bool, readers: map<nat, Reader>, panicked: bool)

  datatype Step =
    | Start(r: nat, offset: nat, size: nat)
    | Complete(id: nat, ok: bool)
    | Pass(r: nat)
    | Cancel(r: nat)
    | Grab(r: nat)

  predicate ValidConfig(c: Config) {
    c.bs > 0
  }

  function Initial(c: Config): State
    requires ValidConfig(c)
  {
    var n := SlotCount(|c.content|, c.bs);
    State(seq(n, _ => None), seq(n, _ => None), multiset{}, map[], 0, false, map[], false)
  }

  // ---------------------------------------------------------------------------------------
  // The steps
  // ---------------------------------------------------------------------------------------

  /** Lines 134-138. */
  function Fetch(s: State, b: nat): State
    requires b < |s.active|
  {
    s.(active := s.active[b := Some(s.next)], inflight := s.inflight[s.next := b], next := s.next + 1)
  }

  function FetchIfUntouched(s: State, b: nat): State
    requires b < |s.cache| == |s.active|
  {
    if s.cache[b].None? && s.active[b].None? then Fetch(s, b) else s
  }

  /** Lines 186-194: the blocks from b to end - 1 are requested, and the channels of the missing
      ones collected. A block without a slot panics. */
  function Request(s: State, b: nat, end: nat): (r: (State, seq<nat>))
    requires |s.cache| == |s.active|
    ensures |r.0.cache| == |r.0.active| == |s.cache| && r.0.failed == s.failed
    decreases end - b
  {
    if b >= end then (s, [])
    else if b >= |s.cache| then (s.(panicked := true), [])
    else
      var s1 := FetchIfUntouched(s, b);
      var (s2, chans) := Request(s1, b + 1, end);
      (s2, if s1.cache[b].None? && s1.active[b].Some? then [s1.active[b].value] + chans else chans)
  }

  /** Lines 196-199. */
  function Purge(s: State, first: nat): State
    requires |s.cache| == |s.active|
  {
    if 1 < first <= |s.cache| && s.cache[first - 1].Some? then
      s.(cache := s.cache[first - 1 := None], active := s.active[first - 1 := None])
    else s
  }

  /** Lines 201-206. */
  function Prefetch(c: Config, s: State, b: nat, count: nat): (s': State)
    requires |s.cache| == |s.active|
    ensures s'.failed == s.failed
    decreases count
  {
    if count == 0 then s
    else
      var s1 := if b * c.bs < |c.content| && b < |s.cache| then FetchIfUntouched(s, b) else s;
      Prefetch(c, s1, b + 1, count - 1)
  }

  /** Lines 174-207. */
  function StartStep(c: Config, s: State, r: nat, offset: nat, size: nat): State
    requires ValidConfig(c) && |s.cache| == |s.active|
  {
    if offset >= |c.content| then s.(readers := s.readers[r := Returned(offset, size, Nil(false))])
    else
      var first, end := First(offset, c.bs), End(offset, size, c.bs);
      if first >= end then s.(panicked := true)
      else
        var (s1, chans) := Request(s, first, end);
        if s1.panicked then s1
        else
          var s2 := Prefetch(c, Purge(s1, first), end, c.prefetch);
          s2.(readers := s2.readers[r := Waiting(offset, size, chans)])
  }

  /** A reply without bytes arrives as nil. */
  function Received(b: Bytes): Option<Bytes> {
    if b == [] then None else Some(b)
  }

  /** Lines 139-148: closing a nil or a closed channel panics. */
  function CompleteStep(c: Config, s: State, id: nat, ok: bool): State
    requires id in s.inflight && |s.cache| == |s.active|
  {
    var b := s.inflight[id];
    if b >= |s.active| || s.active[b].None? || s.active[b].value in s.closed then s.(panicked := true)
    else
      s.(cache := if ok then s.cache[b := Received(BlockOf(c.content, c.bs, b))] else s.cache,
         failed := s.failed || !ok,
         closed := s.closed + multiset{s.active[b].value},
         inflight := s.inflight - {id})
  }

  /** Lines 219-228: all blocks of the range, or nothing when one is missing. */
  function Cached(s: State, first: nat, end: nat): Option<seq<Bytes>> {
    if first <= end <= |s.cache| && forall b :: first <= b < end ==> s.cache[b].Some? then
      Some(seq(end - first, i requires 0 <= i < end - first => s.cache[first + i].value))
    else None
  }

  /** Lines 218-254. */
  function GrabStep(c: Config, s: State, r: nat): State
    requires ValidConfig(c) && r in s.readers && s.readers[r].Waiting?
  {
    var offset, size := s.readers[r].offset, s.readers[r].size;
    var bufs := Cached(s, First(offset, c.bs), End(offset, size, c.bs));
    if bufs.None? then s.(readers := s.readers[r := Returned(offset, size, Nil(s.failed))])
    else if bufs.value == [] || offset % c.bs > |CutLast(bufs.value, (offset % c.bs + size) % c.bs)[0]| then
      s.(panicked := true)
    else s.(readers := s.readers[r := Returned(offset, size, Data(Assemble(bufs.value, offset, size, c.bs)))])
  }

  ghost predicate Enabled(s: State, step: Step) {
    && !s.panicked && |s.cache| == |s.active|
    && match step
       case Start(r, offset, size) => r !in s.readers
       case Complete(id, ok) => id in s.inflight
       case Pass(r) =>
         r in s.readers && s.readers[r].Waiting? && s.readers[r].chans != [] && s.readers[r].chans[0] in s.closed
       case Cancel(r) => r in s.readers && s.readers[r].Waiting? && s.readers[r].chans != []
       case Grab(r) => r in s.readers && s.readers[r].Waiting? && s.readers[r].chans == []
  }

  ghost function Take(c: Config, s: State, step: Step): State
    requires ValidConfig(c)
  {
    if !Enabled(s, step) then s
    else
      match step
      case Start(r, offset, size) => StartStep(c, s, r, offset, size)
      case Complete(id, ok) => CompleteStep(c, s, id, ok)
      case Pass(r) =>
        var w := s.readers[r];
        s.(readers := s.readers[r := w.(chans := w.chans[1..])])
      case Cancel(r) =>
        s.(readers := s.readers[r := Returned(s.readers[r].offset, s.readers[r].size, Interrupted)])
      case Grab(r) => GrabStep(c, s, r)
  }

  ghost function Run(c: Config, s: State, steps: seq<Step>): State
    requires ValidConfig(c)
  {
    if steps == [] then s else Take(c, Run(c, s, steps[..|steps| - 1]), steps[|steps| - 1])
  }

  // ---------------------------------------------------------------------------------------
  // The invariant
  // ---------------------------------------------------------------------------------------

  ghost predicate Served(s: State, ch: nat) {
    ch in s.closed || ch in s.inflight
  }

  /** A block is untouched, in flight, failed, or holds exactly its part of the content. The slot that
      starts at the end of the file, if there is one, never holds anything. */
  ghost predicate BlockInv(c: Config, s: State, b: nat)
    requires b < |s.cache| == |s.active|
  {
    && (s.cache[b].Some? ==>
          && s.cache[b].value == BlockOf(c.content, c.bs, b) && b * c.bs < |c.content|
          && s.active[b].Some? && s.active[b].value in s.closed)
    && (s.active[b].Some? ==>
          var ch := s.active[b].value;
          && ch < s.next && Served(s, ch)
          && (ch in s.inflight ==> s.inflight[ch] == b && s.cache[b].None?)
          && (ch in s.closed && s.cache[b].None? && b * c.bs < |c.content| ==> s.failed))
  }

  ghost predicate CacheInv(c: Config, s: State) {
    && ValidConfig(c) && !s.panicked && |s.cache| == |s.active| == SlotCount(|c.content|, c.bs)
    && (forall b :: 0 <= b < |s.cache| ==> BlockInv(c, s, b))
    && (forall id :: id in s.inflight ==>
          id < s.next && id !in s.closed && s.inflight[id] < |s.active| && s.active[s.inflight[id]] == Some(id))
    && (forall id :: id in s.closed ==> id < s.next && s.closed[id] == 1)
  }

  ghost predicate ReaderInv(c: Config, s: State, rd: Reader)
    requires ValidConfig(c)
  {
    match rd
    case Waiting(offset, size, chans) =>
      && offset < |c.content| && !OutOfRange(|c.content|, c.bs, offset, size)
      && forall i :: 0 <= i < |chans| ==> Served(s, chans[i])
    case Returned(offset, size, result) =>
      result.Data? ==>
        result.bytes == Slice(c.content, offset, size) && Supported(|c.content|, c.bs, offset, size)
  }

  ghost predicate Inv(c: Config, s: State) {
    CacheInv(c, s) && forall r :: r in s.readers ==> ReaderInv(c, s, s.readers[r])
  }

  /** Nothing that someone waits for was lost. */
  ghost predicate Keeps(s: State, s': State) {
    s'.readers == s.readers && forall ch :: Served(s, ch) ==> Served(s', ch)
  }

  lemma FetchKeeps(c: Config, s: State, b: nat)
    requires CacheInv(c, s) && b < |s.cache|
    ensures var s' := FetchIfUntouched(s, b);
      && CacheInv(c, s') && Keeps(s, s') && s'.cache == s.cache
      && (s'.cache[b].Some? || s'.active[b].Some?)
  {
    var s' := FetchIfUntouched(s, b);
    forall i | 0 <= i < |s'.cache| ensures BlockInv(c, s', i) {
      assert BlockInv(c, s, i);
    }
  }

  lemma {:induction false} RequestKeeps(c: Config, s: State, b: nat, end: nat)
    requires CacheInv(c, s) && end <= |s.cache|
    ensures var (s', chans) := Request(s, b, end);
      && CacheInv(c, s') && Keeps(s, s')
      && forall i :: 0 <= i < |chans| ==> Served(s', chans[i])
    decreases end - b
  {
    if b < end {
      FetchKeeps(c, s, b);
      var s1 := FetchIfUntouched(s, b);
      assert BlockInv(c, s1, b);
      RequestKeeps(c, s1, b + 1, end);
    }
  }

  lemma PurgeKeeps(c: Config, s: State, first: nat)
    requires CacheInv(c, s)
    ensures CacheInv(c, Purge(s, first)) && Keeps(s, Purge(s, first))
  {
    var s' := Purge(s, first);
    forall i | 0 <= i < |s'.cache| ensures BlockInv(c, s', i) {
      assert BlockInv(c, s, i);
    }
    forall id | id in s'.inflight ensures s'.active[s'.inflight[id]] == Some(id) {
      assert BlockInv(c, s, s.inflight[id]);
    }
  }

  lemma {:induction false} PrefetchKeeps(c: Config, s: State, b: nat, count: nat)
    requires CacheInv(c, s)
    ensures CacheInv(c, Prefetch(c, s, b, count)) && Keeps(s, Prefetch(c, s, b, count))
    decreases count
  {
    if count > 0 {
      if b * c.bs < |c.content| && b < |s.cache| {
        FetchKeeps(c, s, b);
        PrefetchKeeps(c, FetchIfUntouched(s, b), b + 1, count - 1);
      } else {
        PrefetchKeeps(c, s, b + 1, count - 1);
      }
    }
  }

  // ---------------------------------------------------------------------------------------
  // Every step keeps it
  // ---------------------------------------------------------------------------------------

  lemma ReadersStayServed(c: Config, s: State, s': State)
    requires Inv(c, s) && CacheInv(c, s') && Keeps(s, s')
    ensures Inv(c, s')
  {
  }

  lemma WithReader(c: Config, s: State, r: nat, rd: Reader)
    requires Inv(c, s) && ReaderInv(c, s, rd)
    ensures Inv(c, s.(readers := s.readers[r := rd]))
  {
    var s' := s.(readers := s.readers[r := rd]);
    forall b | 0 <= b < |s'.cache| ensures BlockInv(c, s', b) {
      assert BlockInv(c, s, b);
    }
    forall q | q in s'.readers ensures ReaderInv(c, s', s'.readers[q]) {
      if q != r {
        assert ReaderInv(c, s, s.readers[q]);
      }
    }
  }

  lemma KeepsTransitively(s: State, s1: State, s2: State)
    requires Keeps(s, s1) && Keeps(s1, s2)
    ensures Keeps(s, s2)
  {
  }

  /** The cache after a read has requested its blocks, purged one and prefetched some. */
  function Requested(c: Config, s: State, first: nat, end: nat): (s': State)
    requires |s.cache| == |s.active|
    ensures |s'.cache| == |s'.active| == |s.cache|
  {
    PrefetchSizes(c, Purge(Request(s, first, end).0, first), end, c.prefetch);
    Prefetch(c, Purge(Request(s, first, end).0, first), end, c.prefetch)
  }

  lemma {:induction false} PrefetchSizes(c: Config, s: State, b: nat, count: nat)
    requires |s.cache| == |s.active|
    ensures |Prefetch(c, s, b, count).cache| == |Prefetch(c, s, b, count).active| == |s.cache|
    decreases count
  {
    if count > 0 {
      PrefetchSizes(c, if b * c.bs < |c.content| && b < |s.cache| then FetchIfUntouched(s, b) else s, b + 1, count - 1);
    }
  }

  lemma RequestedKeeps(c: Config, s: State, first: nat, end: nat)
    requires CacheInv(c, s) && end <= |s.cache|
    ensures CacheInv(c, Requested(c, s, first, end)) && Keeps(s, Requested(c, s, first, end))
    ensures forall ch :: ch in Request(s, first, end).1 ==> Served(Requested(c, s, first, end), ch)
  {
    RequestKeeps(c, s, first, end);
    var s1, chans := Request(s, first, end).0, Request(s, first, end).1;
    PurgeKeeps(c, s1, first);
    PrefetchKeeps(c, Purge(s1, first), end, c.prefetch);
    var s2 := Requested(c, s, first, end);
    KeepsTransitively(s1, Purge(s1, first), s2);
    KeepsTransitively(s, s1, s2);
    forall ch | ch in chans ensures Served(s2, ch) {
      var i :| 0 <= i < |chans| && chans[i] == ch;
      assert Served(s1, chans[i]);
    }
  }

  lemma StartKeeps(c: Config, s: State, r: nat, offset: nat, size: nat)
    requires Inv(c, s) && !OutOfRange(|c.content|, c.bs, offset, size)
    ensures Inv(c, StartStep(c, s, r, offset, size))
  {
    if offset >= |c.content| {
      WithReader(c, s, r, Returned(offset, size, Nil(false)));
    } else {
      SupportedRange(|c.content|, c.bs, offset, size);
      var first, end := First(offset, c.bs), End(offset, size, c.bs);
      var (s1, chans) := Request(s, first, end);
      RequestKeeps(c, s, first, end);
      RequestedKeeps(c, s, first, end);
      ReadersStayServed(c, s, Requested(c, s, first, end));
      WithReader(c, Requested(c, s, first, end), r, Waiting(offset, size, chans));
    }
  }

  lemma CompleteKeeps(c: Config, s: State, id: nat, ok: bool)
    requires CacheInv(c, s) && id in s.inflight
    ensures CacheInv(c, CompleteStep(c, s, id, ok)) && Keeps(s, CompleteStep(c, s, id, ok))
    ensures id in CompleteStep(c, s, id, ok).closed
  {
    var b := s.inflight[id];
    assert BlockInv(c, s, b);
    BlockEmptyIff(c.content, c.bs, b);
    var s' := CompleteStep(c, s, id, ok);
    forall i | 0 <= i < |s'.cache| ensures BlockInv(c, s', i) {
      assert BlockInv(c, s, i);
    }
    forall k | k in s'.inflight ensures s'.active[s'.inflight[k]] == Some(k) && k !in s'.closed {
      assert BlockInv(c, s, s.inflight[k]);
    }
  }

  lemma GrabKeeps(c: Config, s: State, r: nat)
    requires Inv(c, s) && r in s.readers && s.readers[r].Waiting?
    ensures Inv(c, GrabStep(c, s, r))
  {
    var offset, size := s.readers[r].offset, s.readers[r].size;
    assert ReaderInv(c, s, s.readers[r]);
    SupportedRange(|c.content|, c.bs, offset, size);
    var first, end := First(offset, c.bs), End(offset, size, c.bs);
    var bufs := Cached(s, first, end);
    if bufs.None? {
      WithReader(c, s, r, Returned(offset, size, Nil(s.failed)));
    } else {
      assert BlockInv(c, s, end - 1);
      GrabbedBlocks(c, s, first, end);
      JoinExact(c.content, c.bs, offset, size);
      WithReader(c, s, r, Returned(offset, size, Data(Assemble(bufs.value, offset, size, c.bs))));
    }
  }

  lemma GrabbedBlocks(c: Config, s: State, first: nat, end: nat)
    requires CacheInv(c, s) && first <= end && Cached(s, first, end).Some?
    ensures Cached(s, first, end).value == BlocksOf(c.content, c.bs, first, end)
  {
    forall i | first <= i < end ensures s.cache[i].value == BlockOf(c.content, c.bs, i) {
      assert BlockInv(c, s, i);
    }
  }

  /** Anything but a read that indexes outside its blocks or outside the cache. */
  ghost predicate InRange(c: Config, step: Step)
    requires ValidConfig(c)
  {
    step.Start? ==> !OutOfRange(|c.content|, c.bs, step.offset, step.size)
  }

  lemma StepKeeps(c: Config, s: State, step: Step)
    requires Inv(c, s) && InRange(c, step)
    ensures Inv(c, Take(c, s, step))
  {
    if Enabled(s, step) {
      match step
      case Start(r, offset, size) => StartKeeps(c, s, r, offset, size);
      case Complete(id, ok) =>
        CompleteKeeps(c, s, id, ok);
        ReadersStayServed(c, s, CompleteStep(c, s, id, ok));
      case Pass(r) =>
        assert ReaderInv(c, s, s.readers[r]);
        WithReader(c, s, r, s.readers[r].(chans := s.readers[r].chans[1..]));
      case Cancel(r) =>
        WithReader(c, s, r, Returned(s.readers[r].offset, s.readers[r].size, Interrupted));
      case Grab(r) => GrabKeeps(c, s, r);
    }
  }

  /** A step panics exactly when it starts a read that is out of range. */
  lemma StepPanicsIff(c: Config, s: State, step: Step)
    requires Inv(c, s) && Enabled(s, step)
    ensures Take(c, s, step).panicked <==> !InRange(c, step)
  {
    if InRange(c, step) {
      StepKeeps(c, s, step);
    } else {
      StartPanicsIff(c, s, step.r, step.offset, step.size);
    }
  }

  /** In every interleaving of reads, up to a panic: blocks hold exactly their slices, at most one
      fetch per block runs, no channel is closed twice, every channel waited for is closed or will
      be, and whatever a read returns is the requested part of the content. Without reads that are
      out of range there is no panic. */
  lemma {:induction false} EveryRunSafe(c: Config, steps: seq<Step>)
    requires ValidConfig(c)
    ensures Run(c, Initial(c), steps).panicked || Inv(c, Run(c, Initial(c), steps))
    ensures (forall step :: step in steps ==> InRange(c, step)) ==> !Run(c, Initial(c), steps).panicked
  {
    if steps != [] {
      var before, step := steps[..|steps| - 1], steps[|steps| - 1];
      EveryRunSafe(c, before);
      var s := Run(c, Initial(c), before);
      assert step in steps && forall e :: e in before ==> e in steps;
      if !s.panicked && Enabled(s, step) {
        StepPanicsIff(c, s, step);
        if InRange(c, step) {
          StepKeeps(c, s, step);
        }
      }
    }
  }

  // ---------------------------------------------------------------------------------------
  // What the invariant means
  // ---------------------------------------------------------------------------------------

  lemma OneFetchPerBlock(c: Config, s: State, i: nat, j: nat)
    requires Inv(c, s) && i in s.inflight && j in s.inflight && s.inflight[i] == s.inflight[j]
    ensures i == j
  {
  }

  /** A waiting reader's next channel is closed, or its fetch is running and closes it. */
  lemma NobodyWaitsForever(c: Config, s: State, r: nat, ok: bool)
    requires Inv(c, s) && r in s.readers && s.readers[r].Waiting? && s.readers[r].chans != []
    ensures var ch := s.readers[r].chans[0];
      Enabled(s, Pass(r)) || (Enabled(s, Complete(ch, ok)) && Enabled(Take(c, s, Complete(ch, ok)), Pass(r)))
  {
    var ch := s.readers[r].chans[0];
    assert ReaderInv(c, s, s.readers[r]) && Served(s, ch);
    if ch !in s.closed {
      CompleteKeeps(c, s, ch, ok);
    }
  }

  /** Whatever bytes a read returns, in any interleaving, are the requested part. */
  lemma WhateverReturnsIsExact(c: Config, steps: seq<Step>, r: nat)
    requires ValidConfig(c)
    ensures var s := Run(c, Initial(c), steps);
      r in s.readers && s.readers[r].Returned? && s.readers[r].result.Data? && !s.panicked ==>
        s.readers[r].result.bytes == Slice(c.content, s.readers[r].offset, s.readers[r].size)
  {
    EveryRunSafe(c, steps);
    var s := Run(c, Initial(c), steps);
    if !s.panicked && r in s.readers {
      assert ReaderInv(c, s, s.readers[r]);
    }
  }

  // ---------------------------------------------------------------------------------------
  // Reads beyond the last block, failures, and purging under a reader
  // ---------------------------------------------------------------------------------------

  lemma {:induction false} RequestPanicsIff(s: State, b: nat, end: nat)
    requires |s.cache| == |s.active| && !s.panicked && b < end
    ensures Request(s, b, end).0.panicked <==> end > |s.cache|
    decreases end - b
  {
    if b < |s.cache| && b + 1 < end {
      RequestPanicsIff(FetchIfUntouched(s, b), b + 1, end);
    }
  }

  lemma {:induction false} PrefetchNeverPanics(c: Config, s: State, b: nat, count: nat)
    requires |s.cache| == |s.active|
    ensures Prefetch(c, s, b, count).panicked == s.panicked
    decreases count
  {
    if count > 0 {
      var s1 := if b * c.bs < |c.content| && b < |s.cache| then FetchIfUntouched(s, b) else s;
      PrefetchNeverPanics(c, s1, b + 1, count - 1);
    }
  }

  /** Starting a read panics exactly when it needs no block at all, or one that has no slot. */
  lemma StartPanicsIff(c: Config, s: State, r: nat, offset: nat, size: nat)
    requires Inv(c, s)
    ensures StartStep(c, s, r, offset, size).panicked <==> OutOfRange(|c.content|, c.bs, offset, size)
  {
    var first, end := First(offset, c.bs), End(offset, size, c.bs);
    if offset < |c.content| {
      SupportedRange(|c.content|, c.bs, offset, size);
    }
    if offset < |c.content| && first < end {
      RequestPanicsIff(s, first, end);
      var s1 := Request(s, first, end).0;
      PrefetchNeverPanics(c, Purge(s1, first), end, c.prefetch);
    }
  }

  /** A block whose fetch failed. */
  ghost predicate Failed(s: State, b: nat, ch: nat) {
    b < |s.cache| == |s.active| && s.cache[b].None? && s.active[b] == Some(ch) && ch in s.closed
  }

  lemma {:induction false} RequestKeepsFailed(s: State, from: nat, end: nat, b: nat, ch: nat)
    requires Failed(s, b, ch)
    ensures Failed(Request(s, from, end).0, b, ch)
    decreases end - from
  {
    if from < end && from < |s.cache| {
      RequestKeepsFailed(FetchIfUntouched(s, from), from + 1, end, b, ch);
    }
  }

  lemma {:induction false} PrefetchKeepsFailed(c: Config, s: State, from: nat, count: nat, b: nat, ch: nat)
    requires Failed(s, b, ch)
    ensures Failed(Prefetch(c, s, from, count), b, ch)
    decreases count
  {
    if count > 0 {
      var s1 := if from * c.bs < |c.content| && from < |s.cache| then FetchIfUntouched(s, from) else s;
      PrefetchKeepsFailed(c, s1, from + 1, count - 1, b, ch);
    }
  }

  /** A failed block is never fetched again, whatever happens afterwards. */
  lemma {:induction false} FailureIsPermanent(c: Config, s: State, steps: seq<Step>, b: nat, ch: nat)
    requires ValidConfig(c) && Failed(s, b, ch)
    ensures Failed(Run(c, s, steps), b, ch)
  {
    if steps != [] {
      FailureIsPermanent(c, s, steps[..|steps| - 1], b, ch);
      var s1, step := Run(c, s, steps[..|steps| - 1]), steps[|steps| - 1];
      if Enabled(s1, step) && step.Start? && step.offset < |c.content| {
        var first, end := First(step.offset, c.bs), End(step.offset, step.size, c.bs);
        RequestKeepsFailed(s1, first, end, b, ch);
        var s2 := Request(s1, first, end).0;
        PrefetchKeepsFailed(c, Purge(s2, first), end, c.prefetch, b, ch);
      }
    }
  }

  // ---------------------------------------------------------------------------------------
  // When a read delivers
  // ---------------------------------------------------------------------------------------

  /** Every block of the range has a channel that is closed or among those still to be waited for. */
  ghost predicate Holds(s: State, first: nat, end: nat, chans: seq<nat>) {
    end <= |s.active| && forall b :: first <= b < end ==> HeldBlock(s, b, chans)
  }

  ghost predicate HeldBlock(s: State, b: nat, chans: seq<nat>)
    requires b < |s.active|
  {
    s.active[b].Some? && (s.active[b].value in chans || s.active[b].value in s.closed)
  }

  ghost predicate ReaderHolds(c: Config, s: State, r: nat)
    requires ValidConfig(c) && r in s.readers && s.readers[r].Waiting?
  {
    var rd := s.readers[r];
    Holds(s, First(rd.offset, c.bs), End(rd.offset, rd.size, c.bs), rd.chans)
  }

  /** Some block of the range was fetched without success. */
  ghost predicate SomeFailed(s: State, first: nat, end: nat) {
    exists b, ch :: first <= b < end && Failed(s, b, ch)
  }

  /** Channels of blocks are never lost but by purging. */
  ghost predicate ActivesKept(s: State, s': State) {
    && |s'.active| == |s.active| && s'.closed == s.closed && s'.cache == s.cache
    && forall b :: 0 <= b < |s.active| && s.active[b].Some? ==> s'.active[b] == s.active[b]
  }

  lemma {:induction false} RequestKeepsActives(s: State, b: nat, end: nat)
    requires |s.cache| == |s.active| && end <= |s.cache|
    ensures ActivesKept(s, Request(s, b, end).0)
    decreases end - b
  {
    if b < end {
      RequestKeepsActives(FetchIfUntouched(s, b), b + 1, end);
    }
  }

  lemma {:induction false} RequestCollects(s: State, b: nat, end: nat, i: nat)
    requires |s.cache| == |s.active| && b <= i < end <= |s.cache| && s.cache[i].None?
    ensures var (s', chans) := Request(s, b, end);
      s'.active[i].Some? && s'.active[i].value in chans
    decreases end - b
  {
    var s1 := FetchIfUntouched(s, b);
    if i == b {
      RequestKeepsActives(s1, b + 1, end);
    } else {
      RequestCollects(s1, b + 1, end, i);
    }
  }

  lemma {:induction false} PrefetchKeepsActives(c: Config, s: State, b: nat, count: nat)
    requires |s.cache| == |s.active|
    ensures ActivesKept(s, Prefetch(c, s, b, count))
    decreases count
  {
    if count > 0 {
      var s1 := if b * c.bs < |c.content| && b < |s.cache| then FetchIfUntouched(s, b) else s;
      PrefetchKeepsActives(c, s1, b + 1, count - 1);
    }
  }

  /** The read drops a block that is cached: the one before its first. */
  ghost predicate Purges(s: State, first: nat, b: nat) {
    b + 1 == first && 0 < b < |s.cache| && s.cache[b].Some?
  }

  lemma RequestedActives(c: Config, s: State, first: nat, end: nat, b: nat)
    requires CacheInv(c, s) && end <= |s.cache| && b < |s.cache|
    ensures Requested(c, s, first, end).closed == s.closed
    ensures s.active[b].Some? && !Purges(s, first, b) ==> Requested(c, s, first, end).active[b] == s.active[b]
    ensures Purges(s, first, b) && b < end ==> Requested(c, s, first, end).active[b].None?
  {
    var s1 := Request(s, first, end).0;
    RequestKeepsActives(s, first, end);
    var s2 := Purge(s1, first);
    PrefetchKeepsActives(c, s2, end, c.prefetch);
    if Purges(s, first, b) && b < end {
      PrefetchElsewhere(c, s2, end, c.prefetch, b);
    }
  }

  lemma {:induction false} PrefetchElsewhere(c: Config, s: State, from: nat, count: nat, b: nat)
    requires |s.cache| == |s.active| && b < from && b < |s.active|
    ensures |Prefetch(c, s, from, count).active| == |s.active| && Prefetch(c, s, from, count).active[b] == s.active[b]
    decreases count
  {
    if count > 0 {
      var s1 := if from * c.bs < |c.content| && from < |s.cache| then FetchIfUntouched(s, from) else s;
      PrefetchElsewhere(c, s1, from + 1, count - 1, b);
    }
  }

  lemma StartIs(c: Config, s: State, r: nat, offset: nat, size: nat)
    requires Inv(c, s) && offset < |c.content| && !OutOfRange(|c.content|, c.bs, offset, size)
    ensures var first, end := First(offset, c.bs), End(offset, size, c.bs);
      && first < end <= |s.cache|
      && StartStep(c, s, r, offset, size) ==
         var s' := Requested(c, s, first, end);
         s'.(readers := s'.readers[r := Waiting(offset, size, Request(s, first, end).1)])
  {
    SupportedRange(|c.content|, c.bs, offset, size);
    RequestKeeps(c, s, First(offset, c.bs), End(offset, size, c.bs));
  }

  lemma RequestedHolds(c: Config, s: State, first: nat, end: nat)
    requires CacheInv(c, s) && end <= |s.cache|
    ensures Holds(Requested(c, s, first, end), first, end, Request(s, first, end).1)
  {
    RequestKeeps(c, s, first, end);
    RequestKeepsActives(s, first, end);
    var s1, chans := Request(s, first, end).0, Request(s, first, end).1;
    PrefetchKeepsActives(c, Purge(s1, first), end, c.prefetch);
    forall b | first <= b < end ensures HeldBlock(Requested(c, s, first, end), b, chans) {
      assert BlockInv(c, s1, b);
      if s.cache[b].None? {
        RequestCollects(s, first, end, b);
      }
    }
  }

  /** What a waiting read needs is there once it has started. */
  lemma StartHolds(c: Config, s: State, r: nat, offset: nat, size: nat)
    requires Inv(c, s) && offset < |c.content| && !OutOfRange(|c.content|, c.bs, offset, size)
    ensures var s' := StartStep(c, s, r, offset, size);
      r in s'.readers && s'.readers[r].Waiting? && ReaderHolds(c, s', r)
  {
    StartIs(c, s, r, offset, size);
    var first, end := First(offset, c.bs), End(offset, size, c.bs);
    var chans := Request(s, first, end).1;
    RequestedHolds(c, s, first, end);
    SameHolds(Requested(c, s, first, end), StartStep(c, s, r, offset, size), first, end, chans);
  }

  lemma SameHolds(s: State, s': State, first: nat, end: nat, chans: seq<nat>)
    requires s.active == s'.active && s.closed == s'.closed
    ensures Holds(s, first, end, chans) <==> Holds(s', first, end, chans)
  {
    if end <= |s.active| {
      assert forall b :: first <= b < end ==> (HeldBlock(s, b, chans) <==> HeldBlock(s', b, chans));
    }
  }

  lemma RequestedHoldsIff(c: Config, s: State, from: nat, to: nat, first: nat, end: nat, chans: seq<nat>)
    requires CacheInv(c, s) && from < to <= |s.cache| && Holds(s, first, end, chans)
    ensures Holds(Requested(c, s, from, to), first, end, chans) <==> !exists b :: first <= b < end && Purges(s, from, b)
  {
    var s' := Requested(c, s, from, to);
    forall b | first <= b < end ensures HeldBlock(s', b, chans) <==> !Purges(s, from, b) {
      RequestedActives(c, s, from, to, b);
      assert HeldBlock(s, b, chans);
    }
  }

  /** Another read's start takes something away exactly when the block before its first one is in
      the range and cached. */
  lemma StartKeepsHoldsIff(c: Config, s: State, q: nat, offset: nat, size: nat, first: nat, end: nat, chans: seq<nat>)
    requires Inv(c, s) && !OutOfRange(|c.content|, c.bs, offset, size) && Holds(s, first, end, chans)
    ensures Holds(StartStep(c, s, q, offset, size), first, end, chans) <==>
      !(offset < |c.content| && exists b :: first <= b < end && Purges(s, First(offset, c.bs), b))
  {
    var s' := StartStep(c, s, q, offset, size);
    if offset < |c.content| {
      StartIs(c, s, q, offset, size);
      var from, to := First(offset, c.bs), End(offset, size, c.bs);
      RequestedHoldsIff(c, s, from, to, first, end, chans);
      SameHolds(Requested(c, s, from, to), s', first, end, chans);
    } else {
      SameHolds(s, s', first, end, chans);
    }
  }

  lemma CachedIff(c: Config, s: State, first: nat, end: nat)
    requires CacheInv(c, s) && first <= end <= |s.cache|
    ensures Cached(s, first, end).Some? <==> Holds(s, first, end, []) && !SomeFailed(s, first, end)
  {
    forall b | first <= b < end
      ensures s.cache[b].Some? ==> HeldBlock(s, b, [])
      ensures HeldBlock(s, b, []) && s.cache[b].None? ==> Failed(s, b, s.active[b].value)
    {
      assert BlockInv(c, s, b);
    }
  }

  lemma {:induction false} RequestElsewhere(s: State, from: nat, end: nat, b: nat)
    requires |s.cache| == |s.active| && b < |s.active| && !(from <= b < end)
    ensures Request(s, from, end).0.active[b] == s.active[b]
    decreases end - from
  {
    if from < end && from < |s.cache| {
      RequestElsewhere(FetchIfUntouched(s, from), from + 1, end, b);
    }
  }

  lemma {:induction false} PrefetchActives(c: Config, s: State, from: nat, count: nat, b: nat)
    requires |s.cache| == |s.active| && b < |s.active|
    ensures |Prefetch(c, s, from, count).active| == |s.active|
    ensures from <= b < from + count && b * c.bs < |c.content| && s.cache[b].None? ==>
      Prefetch(c, s, from, count).active[b].Some?
    ensures !(from <= b < from + count && b * c.bs < |c.content|) ==>
      Prefetch(c, s, from, count).active[b] == s.active[b]
    decreases count
  {
    PrefetchKeepsActives(c, s, from, count);
    if count > 0 {
      var s1 := if from * c.bs < |c.content| && from < |s.cache| then FetchIfUntouched(s, from) else s;
      PrefetchKeepsActives(c, s1, from + 1, count - 1);
      PrefetchActives(c, s1, from + 1, count - 1, b);
    }
  }

  lemma RequestActives(c: Config, s: State, first: nat, end: nat, b: nat)
    requires CacheInv(c, s) && end <= |s.cache| && b < |s.active|
    ensures Request(s, first, end).0.active[b].Some? <==> first <= b < end || s.active[b].Some?
  {
    RequestKeeps(c, s, first, end);
    RequestKeepsActives(s, first, end);
    assert BlockInv(c, s, b);
    if first <= b < end {
      if s.cache[b].None? {
        RequestCollects(s, first, end, b);
      }
    } else {
      RequestElsewhere(s, first, end, b);
    }
  }

  lemma PurgedActives(c: Config, s: State, first: nat, end: nat, b: nat)
    requires CacheInv(c, s) && first < end <= |s.cache| && b < |s.active|
    ensures var s' := Purge(Request(s, first, end).0, first);
      && CacheInv(c, s')
      && (s'.active[b].Some? <==> first <= b < end || (s.active[b].Some? && !Purges(s, first, b)))
  {
    RequestKeeps(c, s, first, end);
    RequestKeepsActives(s, first, end);
    RequestActives(c, s, first, end, b);
    PurgeKeeps(c, Request(s, first, end).0, first);
  }

  lemma RequestedBlocks(c: Config, s: State, first: nat, end: nat, b: nat)
    requires CacheInv(c, s) && first < end <= |s.cache| && b < |s.active|
    ensures Requested(c, s, first, end).active[b].Some? <==>
      || first <= b < end
      || (end <= b < end + c.prefetch && b * c.bs < |c.content|)
      || (s.active[b].Some? && !Purges(s, first, b))
  {
    PurgedActives(c, s, first, end, b);
    var s' := Purge(Request(s, first, end).0, first);
    assert BlockInv(c, s', b);
    PrefetchActives(c, s', end, c.prefetch, b);
    PrefetchKeepsActives(c, s', end, c.prefetch);
  }

  /** Which blocks have a channel once a read has started: those of its range, as many after it as are
      prefetched and lie inside the file, and of the others those that had one and were not purged. */
  lemma StartRequests(c: Config, s: State, r: nat, offset: nat, size: nat, b: nat)
    requires Inv(c, s) && offset < |c.content| && !OutOfRange(|c.content|, c.bs, offset, size) && b < |s.active|
    ensures var s', first, end := StartStep(c, s, r, offset, size), First(offset, c.bs), End(offset, size, c.bs);
      && |s'.active| == |s.active|
      && (s'.active[b].Some? <==>
           || first <= b < end
           || (end <= b < end + c.prefetch && b * c.bs < |c.content|)
           || (s.active[b].Some? && !(b + 1 == first && b > 0 && s.cache[b].Some?)))
  {
    StartIs(c, s, r, offset, size);
    RequestedBlocks(c, s, First(offset, c.bs), End(offset, size, c.bs), b);
  }

  /** The block was not cached when the read began, and this is the channel of its fetch. */
  ghost predicate IsAwaited(s: State, s': State, b: nat, ch: nat) {
    b < |s.cache| && b < |s'.active| && s.cache[b].None? && s'.active[b] == Some(ch)
  }

  lemma {:induction false} RequestAwaits(s: State, first: nat, end: nat, ch: nat)
    requires |s.cache| == |s.active| && end <= |s.cache|
    ensures ch in Request(s, first, end).1 <==>
      exists b :: first <= b < end && IsAwaited(s, Request(s, first, end).0, b, ch)
    decreases end - first
  {
    if first < end {
      var s1 := FetchIfUntouched(s, first);
      var s' := Request(s, first, end).0;
      RequestAwaits(s1, first + 1, end, ch);
      RequestElsewhere(s1, first + 1, end, first);
      assert forall b :: IsAwaited(s1, s', b, ch) <==> IsAwaited(s, s', b, ch);
      assert ch in Request(s, first, end).1 <==> IsAwaited(s, s', first, ch) || ch in Request(s1, first + 1, end).1;
    }
  }

  /** A read waits exactly for the fetches of those of its blocks that were not cached when it began; with
      all of them cached it waits for nothing and cannot be interrupted. */
  lemma StartAwaits(c: Config, s: State, r: nat, offset: nat, size: nat)
    requires Inv(c, s) && offset < |c.content| && !OutOfRange(|c.content|, c.bs, offset, size)
    ensures var s', first, end := StartStep(c, s, r, offset, size), First(offset, c.bs), End(offset, size, c.bs);
      && r in s'.readers && s'.readers[r].Waiting?
      && (forall ch :: ch in s'.readers[r].chans <==> exists b :: first <= b < end && IsAwaited(s, s', b, ch))
      && ((forall b :: first <= b < end && b < |s.cache| ==> s.cache[b].Some?) ==>
            s'.readers[r].chans == [] && !Enabled(s', Cancel(r)))
  {
    var s', first, end := StartStep(c, s, r, offset, size), First(offset, c.bs), End(offset, size, c.bs);
    StartIs(c, s, r, offset, size);
    var s1, chans := Request(s, first, end).0, Request(s, first, end).1;
    forall ch ensures ch in chans <==> exists b :: first <= b < end && IsAwaited(s, s', b, ch) {
      RequestAwaits(s, first, end, ch);
      forall b | first <= b < end ensures IsAwaited(s, s1, b, ch) <==> IsAwaited(s, s', b, ch) {
        AwaitedLater(c, s, first, end, b);
      }
    }
    assert chans != [] ==> chans[0] in chans;
  }

  lemma AwaitedLater(c: Config, s: State, first: nat, end: nat, b: nat)
    requires CacheInv(c, s) && first <= b < end <= |s.cache|
    ensures |Requested(c, s, first, end).active| == |s.active|
    ensures s.cache[b].None? ==> Requested(c, s, first, end).active[b] == Request(s, first, end).0.active[b]
  {
    RequestKeepsActives(s, first, end);
    PrefetchKeepsActives(c, Purge(Request(s, first, end).0, first), end, c.prefetch);
    if s.cache[b].None? {
      RequestCollects(s, first, end, b);
    }
  }

  /** Some fetch of the run ended without success. */
  ghost predicate LetDown(c: Config, steps: seq<Step>)
    requires ValidConfig(c)
  {
    steps != [] &&
      var before, step := steps[..|steps| - 1], steps[|steps| - 1];
      LetDown(c, before) || (step.Complete? && !step.ok && Enabled(Run(c, Initial(c), before), step))
  }

  lemma FailedAfter(c: Config, s: State, step: Step)
    requires Inv(c, s) && InRange(c, step)
    ensures Take(c, s, step).failed <==> s.failed || (Enabled(s, step) && step.Complete? && !step.ok)
  {
    StepKeeps(c, s, step);
  }

  /** The handle remembers an error exactly when some fetch, of whatever block, failed. */
  lemma {:induction false} ErrorsAreRemembered(c: Config, steps: seq<Step>)
    requires ValidConfig(c) && forall step :: step in steps ==> InRange(c, step)
    ensures Run(c, Initial(c), steps).failed <==> LetDown(c, steps)
  {
    if steps != [] {
      var before, step := steps[..|steps| - 1], steps[|steps| - 1];
      assert step in steps && forall e :: e in before ==> e in steps;
      EveryRunSafe(c, before);
      ErrorsAreRemembered(c, before);
      FailedAfter(c, Run(c, Initial(c), before), step);
    }
  }

  /** A read that misses a block reports an error exactly when the handle remembers one. */
  lemma NilReportsAnyFailure(c: Config, s: State, r: nat)
    requires Inv(c, s) && Enabled(s, Grab(r))
    ensures var s', first, end := Take(c, s, Grab(r)), First(s.readers[r].offset, c.bs),
          End(s.readers[r].offset, s.readers[r].size, c.bs);
      && r in s'.readers && s'.readers[r].Returned? && !s'.readers[r].result.Interrupted?
      && (s'.readers[r].result.Nil? <==> exists b :: first <= b < end && b < |s.cache| && s.cache[b].None?)
      && (s'.readers[r].result.Nil? ==> s'.readers[r].result.err == s.failed)
  {
    GrabKeeps(c, s, r);
    assert ReaderInv(c, s, s.readers[r]);
    SupportedRange(|c.content|, c.bs, s.readers[r].offset, s.readers[r].size);
  }

  /** A completion stores the block, or nothing and the error, and closes the channel. */
  lemma CompleteStores(c: Config, s: State, id: nat, ok: bool)
    requires Inv(c, s) && Enabled(s, Complete(id, ok))
    ensures var s', b := Take(c, s, Complete(id, ok)), s.inflight[id];
      && b < |s.cache| == |s'.cache| && id in s'.closed && id !in s'.inflight && s'.active == s.active
      && (!ok ==> s'.failed && s'.cache == s.cache)
      && (ok ==> s'.failed == s.failed && s'.cache[b].Some? == (b * c.bs < |c.content|))
      && (ok && s'.cache[b].Some? ==> s'.cache[b].value == c.content[b * c.bs..Min((b + 1) * c.bs, |c.content|)])
      && forall i :: 0 <= i < |s.cache| && i != b ==> s'.cache[i] == s.cache[i]
  {
    assert BlockInv(c, s, s.inflight[id]);
    BlockEmptyIff(c.content, c.bs, s.inflight[id]);
    NextBlock(c.bs, s.inflight[id]);
  }

  /** A cancelled read returns at once; its fetches go on. */
  lemma CancelInterrupts(c: Config, s: State, r: nat)
    requires Inv(c, s) && Enabled(s, Cancel(r))
    ensures var s' := Take(c, s, Cancel(r));
      && r in s'.readers && s'.readers[r].Returned? && s'.readers[r].result == Interrupted
      && s'.inflight == s.inflight && s'.active == s.active && s'.cache == s.cache
  {
  }

  /** A read from at or beyond the end of the file returns nil at once, and no error. */
  lemma StartAtEnd(c: Config, s: State, r: nat, offset: nat, size: nat)
    requires Inv(c, s) && Enabled(s, Start(r, offset, size)) && offset >= |c.content|
    ensures var s' := Take(c, s, Start(r, offset, size));
      && r in s'.readers && s'.readers[r].Returned? && s'.readers[r].result == Nil(false)
      && s'.cache == s.cache && s'.active == s.active && s'.inflight == s.inflight
  {
  }

  /** When a waiting read looks at the cache it gets its bytes exactly when it still holds every
      block, none of them failed, and it ends within the last block. */
  lemma GrabDeliversIff(c: Config, s: State, r: nat)
    requires Inv(c, s) && Enabled(s, Grab(r))
    ensures var rd := s.readers[r];
      Take(c, s, Grab(r)).readers[r] == Returned(rd.offset, rd.size, Data(Slice(c.content, rd.offset, rd.size))) <==>
        && ReaderHolds(c, s, r) && Supported(|c.content|, c.bs, rd.offset, rd.size)
        && !SomeFailed(s, First(rd.offset, c.bs), End(rd.offset, rd.size, c.bs))
  {
    var rd := s.readers[r];
    var first, end := First(rd.offset, c.bs), End(rd.offset, rd.size, c.bs);
    assert ReaderInv(c, s, rd);
    SupportedRange(|c.content|, c.bs, rd.offset, rd.size);
    CachedIff(c, s, first, end);
    GrabKeeps(c, s, r);
    assert ReaderInv(c, GrabStep(c, s, r), GrabStep(c, s, r).readers[r]);
    if Cached(s, first, end).Some? {
      assert BlockInv(c, s, end - 1);
    }
  }

  /** Inside the file only a fetch that failed makes a block fail. */
  lemma NoneFailed(c: Config, s: State, first: nat, end: nat)
    requires Inv(c, s) && !s.failed && end * c.bs < |c.content| + c.bs
    ensures !SomeFailed(s, first, end)
  {
    forall b, ch | first <= b < end && b < |s.cache| ensures !Failed(s, b, ch) {
      assert BlockInv(c, s, b);
      MulMonotone(b, end - 1, c.bs);
      NextBlock(c.bs, end - 1);
    }
  }

  /** The step starts a read that drops a block which r has waited for or still waits for. */
  ghost predicate Undercuts(c: Config, s: State, step: Step, r: nat)
    requires ValidConfig(c)
  {
    && Enabled(s, step) && step.Start? && step.offset < |c.content| && r in s.readers && s.readers[r].Waiting?
    && var rd := s.readers[r];
       exists b :: First(rd.offset, c.bs) <= b < End(rd.offset, rd.size, c.bs) && Purges(s, First(step.offset, c.bs), b)
  }

  lemma CompleteKeepsHolds(c: Config, s: State, id: nat, ok: bool, first: nat, end: nat, chans: seq<nat>)
    requires Inv(c, s) && id in s.inflight && Holds(s, first, end, chans)
    ensures Holds(CompleteStep(c, s, id, ok), first, end, chans)
  {
    assert BlockInv(c, s, s.inflight[id]);
    forall b | first <= b < end ensures HeldBlock(CompleteStep(c, s, id, ok), b, chans) {
      assert HeldBlock(s, b, chans);
    }
  }

  lemma PassKeepsHolds(s: State, first: nat, end: nat, chans: seq<nat>)
    requires chans != [] && chans[0] in s.closed && Holds(s, first, end, chans)
    ensures Holds(s, first, end, chans[1..])
  {
    forall b | first <= b < end ensures HeldBlock(s, b, chans[1..]) {
      assert HeldBlock(s, b, chans);
      assert chans == [chans[0]] + chans[1..];
    }
  }

  lemma StartKeepsReaderIff(c: Config, s: State, step: Step, r: nat)
    requires Inv(c, s) && InRange(c, step) && r in s.readers && s.readers[r].Waiting? && ReaderHolds(c, s, r)
    requires step.Start? && Enabled(s, step)
    ensures var s' := Take(c, s, step);
      r in s'.readers && s'.readers[r] == s.readers[r] && (ReaderHolds(c, s', r) <==> !Undercuts(c, s, step, r))
  {
    var rd := s.readers[r];
    var first, end := First(rd.offset, c.bs), End(rd.offset, rd.size, c.bs);
    StartKeepsHoldsIff(c, s, step.r, step.offset, step.size, first, end, rd.chans);
    StartReaders(c, s, step.r, step.offset, step.size);
  }

  lemma OthersKeepReader(c: Config, s: State, step: Step, r: nat)
    requires Inv(c, s) && r in s.readers && s.readers[r].Waiting? && ReaderHolds(c, s, r) && !step.Start?
    ensures var s' := Take(c, s, step);
      r in s'.readers && (s'.readers[r].Waiting? ==> ReaderHolds(c, s', r))
  {
    var rd, s' := s.readers[r], Take(c, s, step);
    var first, end := First(rd.offset, c.bs), End(rd.offset, rd.size, c.bs);
    if Enabled(s, step) {
      match step
      case Start(_, _, _) => assert false;
      case Complete(id, ok) =>
        CompleteKeepsHolds(c, s, id, ok, first, end, rd.chans);
        CompleteKeeps(c, s, id, ok);
      case Pass(q) =>
        if q == r { PassKeepsHolds(s, first, end, rd.chans); SameHolds(s, s', first, end, rd.chans[1..]); }
        else { SameHolds(s, s', first, end, rd.chans); }
      case Cancel(q) => SameHolds(s, s', first, end, rd.chans);
      case Grab(q) =>
        GrabKeepsOffset(c, s, q);
        SameHolds(s, s', first, end, rd.chans);
    }
  }

  /** A waiting read keeps what it needs in every step but those that undercut it. */
  lemma StepKeepsHoldsIff(c: Config, s: State, step: Step, r: nat)
    requires Inv(c, s) && InRange(c, step) && r in s.readers && s.readers[r].Waiting? && ReaderHolds(c, s, r)
    ensures r in Take(c, s, step).readers
    ensures var s' := Take(c, s, step);
      s'.readers[r].Waiting? ==> (ReaderHolds(c, s', r) <==> !Undercuts(c, s, step, r))
  {
    if step.Start? && Enabled(s, step) {
      StartKeepsReaderIff(c, s, step, r);
    } else if !step.Start? {
      OthersKeepReader(c, s, step, r);
    }
  }

  lemma StartReaders(c: Config, s: State, q: nat, offset: nat, size: nat)
    requires Inv(c, s) && !OutOfRange(|c.content|, c.bs, offset, size)
    ensures forall r :: r in s.readers && r != q ==>
      r in StartStep(c, s, q, offset, size).readers && StartStep(c, s, q, offset, size).readers[r] == s.readers[r]
  {
    if offset < |c.content| {
      StartIs(c, s, q, offset, size);
      RequestedKeeps(c, s, First(offset, c.bs), End(offset, size, c.bs));
    }
  }

  ghost predicate Undisturbed(c: Config, s: State, steps: seq<Step>, r: nat)
    requires ValidConfig(c)
  {
    forall i {:trigger steps[i]} :: 0 <= i < |steps| ==> !Undercuts(c, Run(c, s, steps[..i]), steps[i], r)
  }

  /** What may have become of a read that held its blocks and was not undercut. */
  ghost predicate Delivered(c: Config, s: State, r: nat, offset: nat, size: nat)
    requires ValidConfig(c)
  {
    && r in s.readers && s.readers[r].offset == offset && s.readers[r].size == size
    && match s.readers[r]
       case Waiting(_, _, _) => ReaderHolds(c, s, r)
       case Returned(_, _, result) =>
         || result == Data(Slice(c.content, offset, size))
         || result == Interrupted
         || (result == Nil(true) && SomeFailed(s, First(offset, c.bs), End(offset, size, c.bs)))
  }

  lemma FailedStays(c: Config, s: State, step: Step, first: nat, end: nat)
    requires ValidConfig(c) && SomeFailed(s, first, end)
    ensures SomeFailed(Take(c, s, step), first, end)
  {
    var b, ch :| first <= b < end && Failed(s, b, ch);
    FailureIsPermanent(c, s, [step], b, ch);
    assert [step][..0] == [] && Run(c, s, []) == s;
    assert Failed(Take(c, s, step), b, ch);
  }

  lemma GrabDelivers(c: Config, s: State, r: nat, offset: nat, size: nat)
    requires Inv(c, s) && Supported(|c.content|, c.bs, offset, size) && Enabled(s, Grab(r))
    requires s.readers[r].offset == offset && s.readers[r].size == size && ReaderHolds(c, s, r)
    ensures Delivered(c, Take(c, s, Grab(r)), r, offset, size)
  {
    GrabDeliversIff(c, s, r);
    GrabKeepsOffset(c, s, r);
    var first, end := First(offset, c.bs), End(offset, size, c.bs);
    if SomeFailed(s, first, end) {
      GrabReports(c, s, r);
      FailedStays(c, s, Grab(r), first, end);
    }
  }

  lemma StaysDelivered(c: Config, s: State, step: Step, r: nat, offset: nat, size: nat)
    requires Inv(c, s) && InRange(c, step) && Supported(|c.content|, c.bs, offset, size)
    requires Delivered(c, s, r, offset, size) && !Undercuts(c, s, step, r)
    ensures Delivered(c, Take(c, s, step), r, offset, size)
  {
    var first, end := First(offset, c.bs), End(offset, size, c.bs);
    if step == Grab(r) && Enabled(s, step) {
      GrabDelivers(c, s, r, offset, size);
    } else {
      OtherStepsKeepReader(c, s, step, r);
      if s.readers[r].Waiting? {
        StepKeepsHoldsIff(c, s, step, r);
      } else if SomeFailed(s, first, end) {
        FailedStays(c, s, step, first, end);
      }
    }
  }

  lemma GrabKeepsOffset(c: Config, s: State, r: nat)
    requires Inv(c, s) && Enabled(s, Grab(r))
    ensures var s' := GrabStep(c, s, r);
      && r in s'.readers && s'.readers[r].Returned? && s'.readers[r].offset == s.readers[r].offset
      && s'.readers[r].size == s.readers[r].size
      && s'.cache == s.cache && s'.active == s.active && s'.closed == s.closed
  {
    GrabKeeps(c, s, r);
  }

  /** A read whose block failed reports the error. */
  lemma GrabReports(c: Config, s: State, r: nat)
    requires Inv(c, s) && Enabled(s, Grab(r)) && Supported(|c.content|, c.bs, s.readers[r].offset, s.readers[r].size)
    requires SomeFailed(s, First(s.readers[r].offset, c.bs), End(s.readers[r].offset, s.readers[r].size, c.bs))
    ensures GrabStep(c, s, r).readers[r].result == Nil(true)
  {
    var rd := s.readers[r];
    assert ReaderInv(c, s, rd);
    SupportedRange(|c.content|, c.bs, rd.offset, rd.size);
    NextBlock(c.bs, End(rd.offset, rd.size, c.bs) - 1);
    if !s.failed {
      NoneFailed(c, s, First(rd.offset, c.bs), End(rd.offset, rd.size, c.bs));
    }
  }

  lemma OtherStepsKeepReader(c: Config, s: State, step: Step, r: nat)
    requires Inv(c, s) && InRange(c, step) && r in s.readers && !(step == Grab(r) && Enabled(s, step))
    ensures var rd, s' := s.readers[r], Take(c, s, step);
      r in s'.readers && (s'.readers[r] == rd
        || (rd.Waiting? && s'.readers[r].Waiting? && s'.readers[r].offset == rd.offset && s'.readers[r].size == rd.size)
        || s'.readers[r] == Returned(rd.offset, rd.size, Interrupted))
  {
    if Enabled(s, step) {
      match step
      case Start(q, offset, size) => StartReaders(c, s, q, offset, size);
      case Complete(id, ok) => CompleteKeeps(c, s, id, ok);
      case Pass(q) =>
      case Cancel(q) =>
      case Grab(q) => GrabKeeps(c, s, q);
    }
  }

  /** In every interleaving, a read that ends within the last block and is never undercut returns
      exactly its bytes, unless it is interrupted or a fetch of one of its blocks fails. */
  lemma {:induction false} UndisturbedReadDelivers(c: Config, s: State, steps: seq<Step>, r: nat,
                                                   offset: nat, size: nat)
    requires Inv(c, s) && Supported(|c.content|, c.bs, offset, size) && Delivered(c, s, r, offset, size)
    requires (forall step :: step in steps ==> InRange(c, step)) && Undisturbed(c, s, steps, r)
    ensures Inv(c, Run(c, s, steps)) && Delivered(c, Run(c, s, steps), r, offset, size)
  {
    if steps != [] {
      var before, step := steps[..|steps| - 1], steps[|steps| - 1];
      forall i | 0 <= i < |before| ensures !Undercuts(c, Run(c, s, before[..i]), before[i], r) {
        assert before[..i] == steps[..i] && before[i] == steps[i];
      }
      UndisturbedReadDelivers(c, s, before, r, offset, size);
      assert step in steps;
      StepKeeps(c, Run(c, s, before), step);
      StaysDelivered(c, Run(c, s, before), step, r, offset, size);
    }
  }

  /** A condition on the offsets alone: no read starts in a block after the range's first one, up to
      the block that follows the range. */
  ghost predicate Apart(c: Config, step: Step, offset: nat, size: nat)
    requires ValidConfig(c)
  {
    step.Start? && step.offset < |c.content| ==>
      First(step.offset, c.bs) <= First(offset, c.bs) || First(step.offset, c.bs) > End(offset, size, c.bs)
  }

  lemma {:induction false} ReadsApartDeliver(c: Config, s: State, steps: seq<Step>, r: nat, offset: nat, size: nat)
    requires Inv(c, s) && Supported(|c.content|, c.bs, offset, size) && Delivered(c, s, r, offset, size)
    requires forall step :: step in steps ==> InRange(c, step) && Apart(c, step, offset, size)
    ensures Delivered(c, Run(c, s, steps), r, offset, size) && Inv(c, Run(c, s, steps))
  {
    if steps != [] {
      var before, step := steps[..|steps| - 1], steps[|steps| - 1];
      ReadsApartDeliver(c, s, before, r, offset, size);
      assert step in steps;
      StepKeeps(c, Run(c, s, before), step);
      StaysDelivered(c, Run(c, s, before), step, r, offset, size);
    }
  }

  lemma {:induction false} RunOn(c: Config, s: State, a: seq<Step>, b: seq<Step>)
    requires ValidConfig(c)
    ensures Run(c, s, a + b) == Run(c, Run(c, s, a), b)
  {
    if b == [] {
      assert a + b == a;
    } else {
      RunOn(c, s, a, b[..|b| - 1]);
      assert (a + b)[..|a + b| - 1] == a + b[..|b| - 1];
    }
  }

  /** One step on the way to the end of a wait: the next channel's fetch completes, or it is passed. */
  function Onward(s: State, r: nat): Step
    requires r in s.readers && s.readers[r].Waiting? && s.readers[r].chans != []
  {
    if s.readers[r].chans[0] in s.closed then Pass(r) else Complete(s.readers[r].chans[0], true)
  }

  lemma OnwardAdvances(c: Config, s: State, r: nat)
    requires Inv(c, s) && r in s.readers && s.readers[r].Waiting? && s.readers[r].chans != []
    ensures var rd, s' := s.readers[r], Take(c, s, Onward(s, r));
      && Inv(c, s') && r in s'.readers && s'.failed == s.failed
      && s'.readers[r] == (if Onward(s, r).Pass? then rd.(chans := rd.chans[1..]) else rd)
      && (Onward(s, r).Complete? ==> rd.chans[0] in s'.closed)
      && (ReaderHolds(c, s, r) ==> ReaderHolds(c, s', r))
  {
    assert ReaderInv(c, s, s.readers[r]) && Served(s, s.readers[r].chans[0]);
    StepKeeps(c, s, Onward(s, r));
    if Onward(s, r).Complete? {
      CompleteKeeps(c, s, Onward(s, r).id, true);
    }
    if ReaderHolds(c, s, r) {
      StepKeepsHoldsIff(c, s, Onward(s, r), r);
    }
  }

  /** From every reachable state a waiting read can return without any further read, and with its
      bytes if it still holds its blocks and no fetch has failed. */
  lemma {:induction false} CanReturn(c: Config, s: State, r: nat) returns (steps: seq<Step>)
    requires Inv(c, s) && r in s.readers && s.readers[r].Waiting?
    ensures forall step :: step in steps ==> step.Pass? || step.Grab? || (step.Complete? && step.ok)
    ensures var rd, s' := s.readers[r], Run(c, s, steps);
      && r in s'.readers && s'.readers[r].Returned?
      && (ReaderHolds(c, s, r) && Supported(|c.content|, c.bs, rd.offset, rd.size) && !s.failed ==>
            s'.readers[r].result == Data(Slice(c.content, rd.offset, rd.size)))
    decreases |s.readers[r].chans|, if s.readers[r].chans != [] && s.readers[r].chans[0] in s.closed then 0 else 1
  {
    var rd := s.readers[r];
    if rd.chans == [] {
      steps := [Grab(r)];
      assert steps[..0] == [] && Run(c, s, []) == s;
      GrabDeliversIff(c, s, r);
      GrabKeepsOffset(c, s, r);
      assert ReaderInv(c, s, rd);
      SupportedRange(|c.content|, c.bs, rd.offset, rd.size);
      if !s.failed && Supported(|c.content|, c.bs, rd.offset, rd.size) {
        NextBlock(c.bs, End(rd.offset, rd.size, c.bs) - 1);
        NoneFailed(c, s, First(rd.offset, c.bs), End(rd.offset, rd.size, c.bs));
      }
    } else {
      OnwardAdvances(c, s, r);
      var rest := CanReturn(c, Take(c, s, Onward(s, r)), r);
      steps := [Onward(s, r)] + rest;
      assert [Onward(s, r)][..0] == [] && Run(c, s, []) == s;
      RunOn(c, s, [Onward(s, r)], rest);
    }
  }

  lemma Ran(c: Config, s: State, steps: seq<Step>, step: Step)
    requires ValidConfig(c)
    ensures Run(c, s, steps + [step]) == Take(c, Run(c, s, steps), step)
  {
  }

  lemma RequestOne(s: State, b: nat)
    requires b < |s.cache| == |s.active| && s.cache[b].None? && s.active[b].None?
    ensures Request(s, b, b + 1) == (Fetch(s, b), [s.next])
  {
    var s1 := Fetch(s, b);
    assert Request(s1, b + 1, b + 1) == (s1, []);
    assert [s.next] + [] == [s.next];
  }

  /** A reader of the second of three one-byte blocks, and one of the third. */
  const PURGE_CONFIG := Config([1, 2, 3], 1, 0)
  const PURGE_STEPS := [Start(0, 1, 1), Complete(0, true), Start(1, 2, 1), Pass(0), Grab(0)]

  /** The state once both readers have started and the first block has arrived. */
  function BothStarted(): State {
    State([None, None, None, None], [None, None, Some(1), None], multiset{0}, map[1 := 2], 2, false,
      map[0 := Waiting(1, 1, [0]), 1 := Waiting(2, 1, [1])], false)
  }

  lemma FirstReaderStarts()
    ensures ValidConfig(PURGE_CONFIG)
    ensures Take(PURGE_CONFIG, Take(PURGE_CONFIG, Initial(PURGE_CONFIG), Start(0, 1, 1)), Complete(0, true)) ==
      State([None, Some([2]), None, None], [None, Some(0), None, None], multiset{0}, map[], 1, false,
        map[0 := Waiting(1, 1, [0])], false)
  {
    var c, s0 := PURGE_CONFIG, Initial(PURGE_CONFIG);
    assert s0.cache == [None, None, None, None] && s0.active == [None, None, None, None];
    RequestOne(s0, 1);
    assert Take(c, s0, Start(0, 1, 1)) ==
      s0.(active := [None, Some(0), None, None], inflight := map[0 := 1], next := 1,
          readers := map[0 := Waiting(1, 1, [0])]);
    assert BlockOf(c.content, 1, 1) == [2];
  }

  lemma SecondReaderPurges(s: State)
    requires s == State([None, Some([2]), None, None], [None, Some(0), None, None], multiset{0}, map[], 1, false,
        map[0 := Waiting(1, 1, [0])], false)
    ensures ValidConfig(PURGE_CONFIG) && Take(PURGE_CONFIG, s, Start(1, 2, 1)) == BothStarted()
  {
    RequestOne(s, 2);
    assert Purge(Fetch(s, 2), 2).active == [None, None, Some(1), None];
    assert Purge(Fetch(s, 2), 2).cache == [None, None, None, None];
  }

  lemma FirstReaderMissesOut()
    ensures ValidConfig(PURGE_CONFIG)
    ensures var s := Take(PURGE_CONFIG, Take(PURGE_CONFIG, BothStarted(), Pass(0)), Grab(0));
      !s.failed && 0 in s.readers && s.readers[0] == Returned(1, 1, Nil(false))
  {
  }

  lemma PurgeStepsInRange()
    ensures ValidConfig(PURGE_CONFIG) && forall step :: step in PURGE_STEPS ==> InRange(PURGE_CONFIG, step)
  {
  }

  lemma RanTwo(c: Config, s: State, a: Step, b: Step)
    requires ValidConfig(c)
    ensures Run(c, s, [a, b]) == Take(c, Take(c, s, a), b)
  {
    assert Run(c, s, []) == s && [] + [a] == [a] && [a] + [b] == [a, b];
    Ran(c, s, [], a);
    Ran(c, s, [a], b);
  }

  lemma RanFive(c: Config, s: State, a: Step, b: Step, d: Step, e: Step, f: Step)
    requires ValidConfig(c)
    ensures Run(c, s, [a, b, d, e, f]) == Take(c, Take(c, Take(c, Take(c, Take(c, s, a), b), d), e), f)
  {
    RanTwo(c, s, a, b);
    RanTwo(c, Run(c, s, [a, b]), d, e);
    RunOn(c, s, [a, b], [d, e]);
    Ran(c, s, [a, b] + [d, e], f);
    assert [a, b] + [d, e] + [f] == [a, b, d, e, f];
  }

  /** An undercut read: it gives no bytes and no error, as at the end of the file, although no fetch
      failed. */
  lemma PurgedUnderReader()
    ensures ValidConfig(PURGE_CONFIG) && forall step :: step in PURGE_STEPS ==> InRange(PURGE_CONFIG, step)
    ensures var s := Run(PURGE_CONFIG, Initial(PURGE_CONFIG), PURGE_STEPS);
      !s.failed && 0 in s.readers && s.readers[0] == Returned(1, 1, Nil(false))
  {
    PurgeStepsInRange();
    var c, s0 := PURGE_CONFIG, Initial(PURGE_CONFIG);
    RanFive(c, s0, Start(0, 1, 1), Complete(0, true), Start(1, 2, 1), Pass(0), Grab(0));
    FirstReaderStarts();
    SecondReaderPurges(Take(c, Take(c, s0, Start(0, 1, 1)), Complete(0, true)));
    FirstReaderMissesOut();
  }
}
