/** server.go: the index from hash to the files that have it, fed by the shares' scanners. */
module ReverseIndex {
  import opened Paths
  import opened FileIndex
  import opened Blocks

  type HashIndex = map<string, set<string>>

  const NUL := '\0'

  /** Line 185. */
  function KeyOf(share: string, path: string): string {
    share + [NUL] + path
  }

  predicate ValidPair(share: string, path: string) {
    Free(share, NUL) && Free(path, NUL)
  }

  lemma KeySplits(share: string, path: string)
    requires ValidPair(share, path)
    ensures Split(KeyOf(share, path), NUL) == [share, path] && KeyOf(share, path) == share + "\0" + path
  {
    SplitPrefix(share, path, NUL);
    SplitFree(path, NUL);
  }

  lemma KeyInjective(share: string, path: string, share': string, path': string)
    requires ValidPair(share, path) && ValidPair(share', path') && KeyOf(share, path) == KeyOf(share', path')
    ensures share == share' && path == path'
  {
    KeySplits(share, path);
    KeySplits(share', path');
    assert [share, path][0] == [share', path'][0] && [share, path][1] == [share', path'][1];
  }

  function PathsWith(x: HashIndex, h: string): set<string> {
    if h in x then x[h] else {}
  }

  ghost predicate NoneEmpty(x: HashIndex) {
    forall h :: h in x ==> x[h] != {}
  }

  /** Lines 187-192. */
  function Removed(x: HashIndex, key: string, prev: Option<FileInfo>): HashIndex {
    if prev.None? then x
    else
      var left := PathsWith(x, prev.value.hash) - {key};
      if left == {} then x - {prev.value.hash} else x[prev.value.hash := left]
  }

  /** Lines 193-198. */
  function Added(x: HashIndex, key: string, info: Option<FileInfo>): HashIndex {
    if info.None? then x else x[info.value.hash := PathsWith(x, info.value.hash) + {key}]
  }

  function Reindex(x: HashIndex, key: string, prev: Option<FileInfo>, info: Option<FileInfo>): HashIndex {
    Added(Removed(x, key, prev), key, info)
  }

  /** The key leaves the previous hash and joins the new one; nothing else moves. */
  lemma ReindexMoves(x: HashIndex, key: string, prev: Option<FileInfo>, info: Option<FileInfo>, h: string, k: string)
    ensures k in PathsWith(Reindex(x, key, prev, info), h) <==>
      || (k == key && info.Some? && info.value.hash == h)
      || (k in PathsWith(x, h) && !(k == key && prev.Some? && prev.value.hash == h))
  {
  }

  lemma ReindexNoneEmpty(x: HashIndex, key: string, prev: Option<FileInfo>, info: Option<FileInfo>)
    requires NoneEmpty(x)
    ensures NoneEmpty(Reindex(x, key, prev, info))
  {
  }

  datatype ReadReply = Data(bytes: Bytes) | NotFound | OpenFailed

  class Server {
    var hashToPath: HashIndex

    constructor ()
      ensures hashToPath == map[]
    {
      hashToPath := map[];
    }

    /** Lines 184-199. */
    method SetFile(share: string, path: string, info: Option<FileInfo>, prev: Option<FileInfo>)
      modifies this
      ensures hashToPath == Reindex(old(hashToPath), KeyOf(share, path), prev, info)
    {
      var key := KeyOf(share, path);
      if prev.Some? {
        var h := prev.value.hash;
        if h in hashToPath {
          hashToPath := hashToPath[h := hashToPath[h] - {key}];
          if hashToPath[h] == {} {
            hashToPath := hashToPath - {h};
          }
        }
        assert hashToPath == Removed(old(hashToPath), key, prev);
      }
      if info.Some? {
        var h := info.value.hash;
        if h !in hashToPath {
          hashToPath := hashToPath[h := {}];
        }
        hashToPath := hashToPath[h := hashToPath[h] + {key}];
      }
    }

    /** Lines 212-251: some file with the hash that can be opened is read at the offset; `disk` are
        the files that can be opened. */
    method Read(hash: string, offset: nat, size: nat, disk: map<(string, string), Bytes>) returns (r: ReadReply)
      requires forall k :: k in PathsWith(hashToPath, hash) ==> IsKey(k)
      ensures r.NotFound? <==> PathsWith(hashToPath, hash) == {}
      ensures r.Data? <==> exists share, path :: IsServable(hashToPath, hash, disk, share, path)
      ensures r.Data? ==> exists share, path ::
        IsServable(hashToPath, hash, disk, share, path) && r.bytes == Slice(disk[(share, path)], offset, size)
    {
      var paths := PathsWith(hashToPath, hash);
      if paths == {} {
        return NotFound;
      }
      r := OpenFailed;
      var todo := paths;
      while todo != {}
        invariant todo <= paths && r == OpenFailed
        invariant forall share, path :: IsServable(hashToPath, hash, disk, share, path) ==> KeyOf(share, path) in todo
        decreases todo
      {
        var key :| key in todo;
        todo := todo - {key};
        assert IsKey(key);
        ghost var share, path :| ValidPair(share, path) && key == KeyOf(share, path);
        KeySplits(share, path);
        var sp := Split(key, NUL);
        if (sp[0], sp[1]) in disk {
          assert IsServable(hashToPath, hash, disk, share, path);
          return Data(Slice(disk[(sp[0], sp[1])], offset, size));
        }
        forall s, p | IsServable(hashToPath, hash, disk, s, p) ensures KeyOf(s, p) in todo {
          if KeyOf(s, p) == key {
            KeyInjective(s, p, share, path);
          }
        }
      }
    }
  }

  /** A file that is indexed under the hash and can be opened. */
  ghost predicate IsServable(x: HashIndex, hash: string, disk: map<(string, string), Bytes>, share: string,
                             path: string) {
    ValidPair(share, path) && KeyOf(share, path) in PathsWith(x, hash) && (share, path) in disk
  }

  // Scanners and exports interleaved (filescanner.go lines 83-103 and 192-208, server.go lines 147-165).
  // One step is one lock section with the callbacks it leads to.

  type Pair = (string, string)

  predicate IsPair(k: Pair) {
    ValidPair(k.0, k.1)
  }

  function Key(k: Pair): string {
    KeyOf(k.0, k.1)
  }

  /** The scanners' caches, the entries still to be exported from each share's last snapshot, and the
      shares whose listener is not cancelled. */
  datatype Feed = Feed(caches: map<Pair, FileInfo>, pending: map<Pair, FileInfo>, live: set<string>, index: HashIndex)

  datatype Event =
    | Set(at: Pair, info: Option<FileInfo>)
    | Register(share: string)
    | Export(at: Pair)
    | Cancel(share: string)

  const NOTHING := Feed(map[], map[], {}, map[])

  ghost predicate Possible(s: Feed, e: Event) {
    match e
    case Set(k, _) => IsPair(k)
    case Export(k) => k in s.pending
    case _ => true
  }

  /** The zero value that Go's map lookup gives for an absent path is what the listeners are told. */
  function Cached(c: map<Pair, FileInfo>, k: Pair): FileInfo {
    if k in c then c[k] else ZERO
  }

  function Step(s: Feed, e: Event): Feed
    requires Possible(s, e)
  {
    match e
    case Set(k, info) =>
      var index := if k.0 in s.live then Reindex(s.index, Key(k), Some(Cached(s.caches, k)), info) else s.index;
      s.(caches := if info.Some? then s.caches[k := info.value] else s.caches - {k}, index := index)
    case Register(share) =>
      s.(live := s.live + {share}, pending := s.pending + map k | k in s.caches && k.0 == share :: s.caches[k])
    case Export(k) =>
      s.(pending := s.pending - {k}, index := Reindex(s.index, Key(k), None, Some(s.pending[k])))
    case Cancel(share) =>
      s.(live := s.live - {share}, pending := map k | k in s.pending && k.0 != share :: s.pending[k])
  }

  ghost predicate PossibleRun(s: Feed, run: seq<Event>)
    decreases |run|
  {
    run == [] || (Possible(s, run[0]) && PossibleRun(Step(s, run[0]), run[1..]))
  }

  ghost function Run(s: Feed, run: seq<Event>): Feed
    requires PossibleRun(s, run)
    decreases |run|
  {
    if run == [] then s else Run(Step(s, run[0]), run[1..])
  }

  ghost predicate Absent(s: Feed, k: Pair) {
    forall h :: Key(k) !in PathsWith(s.index, h)
  }

  /** The index has the path under the hash in the cache and under no other. */
  ghost predicate Agrees(s: Feed, k: Pair) {
    forall h :: Key(k) in PathsWith(s.index, h) <==> k in s.caches && s.caches[k].hash == h
  }

  /** In step, or waiting for an export that will bring it in step. */
  ghost predicate Settled(s: Feed, k: Pair) {
    || Agrees(s, k)
    || (Absent(s, k) && (k.0 !in s.live || (k in s.pending && k in s.caches && s.pending[k].hash == s.caches[k].hash)))
  }

  /** What holds in every run, whatever the interleaving. */
  ghost predicate Sound(s: Feed) {
    && NoneEmpty(s.index)
    && (forall k :: k in s.caches ==> IsPair(k))
    && (forall k :: k in s.pending ==> IsPair(k) && k.0 in s.live)
    && (forall h, key :: key in PathsWith(s.index, h) ==> IsKey(key))
  }

  ghost predicate IsKey(key: string) {
    exists share, path :: ValidPair(share, path) && key == KeyOf(share, path)
  }

  /** The exported hash is still the cached one, and what is set is either heard or was never indexed. */
  ghost predicate Harmless(s: Feed, e: Event, k: Pair)
    requires Possible(s, e)
  {
    match e
    case Set(at, info) =>
      at == k ==> k.0 in s.live || Absent(s, k) || (info.Some? && k in s.caches && info.value.hash == s.caches[k].hash)
    case Export(at) => at == k ==> k in s.caches && s.caches[k].hash == s.pending[k].hash
    case _ => true
  }

  /** A registration puts the share's whole cache up for export and starts its listener. */
  lemma RegisterSnapshots(s: Feed, share: string)
    ensures var s' := Step(s, Register(share));
      && s'.live == s.live + {share} && s'.caches == s.caches && s'.index == s.index
      && (forall k :: k in s'.pending <==> k in s.pending || (k in s.caches && k.0 == share))
      && (forall k :: k in s'.pending ==>
            s'.pending[k] == if k in s.caches && k.0 == share then s.caches[k] else s.pending[k])
  {
  }

  /** A cancellation ends the share's export, and the index hears nothing of what is set afterwards. */
  lemma CancelSilences(s: Feed, share: string, k: Pair, info: Option<FileInfo>)
    requires IsPair(k) && k.0 == share
    ensures var s' := Step(s, Cancel(share));
      && share !in s'.live && s'.live == s.live - {share} && s'.caches == s.caches && s'.index == s.index
      && (forall q :: q in s'.pending <==> q in s.pending && q.0 != share)
      && (forall q :: q in s'.pending ==> s'.pending[q] == s.pending[q])
      && Step(s', Set(k, info)).index == s.index
  {
  }

  /** A change that a listener hears is in the cache and, alone of the path's hashes, in the index; an
      export is delivered once. */
  lemma SetAndExport(s: Feed, k: Pair, info: Option<FileInfo>)
    requires Sound(s) && IsPair(k)
    ensures var s' := Step(s, Set(k, info));
      && (k in s'.caches <==> info.Some?) && (info.Some? ==> s'.caches[k] == info.value)
      && (forall q :: q != k ==> (q in s'.caches <==> q in s.caches) && (q in s.caches ==> s'.caches[q] == s.caches[q]))
      && s'.pending == s.pending && s'.live == s.live
      && (k.0 !in s.live ==> s'.index == s.index)
    ensures k.0 in s.live ==> forall h, key :: key in PathsWith(Step(s, Set(k, info)).index, h) <==>
      || (key == Key(k) && info.Some? && info.value.hash == h)
      || (key in PathsWith(s.index, h) && !(key == Key(k) && h == if k in s.caches then s.caches[k].hash else ""))
    ensures k in s.pending ==> forall h, key :: key in PathsWith(Step(s, Export(k)).index, h) <==>
      (key == Key(k) && s.pending[k].hash == h) || key in PathsWith(s.index, h)
    ensures k in s.pending ==> var s' := Step(s, Export(k));
      k !in s'.pending && s'.pending == s.pending - {k} && s'.caches == s.caches && s'.live == s.live
  {
  }

  lemma ReindexElsewhere(x: HashIndex, at: Pair, prev: Option<FileInfo>, info: Option<FileInfo>, k: Pair, h: string)
    requires IsPair(at) && IsPair(k) && at != k
    ensures Key(k) in PathsWith(Reindex(x, Key(at), prev, info), h) <==> Key(k) in PathsWith(x, h)
  {
    if Key(at) == Key(k) {
      KeyInjective(at.0, at.1, k.0, k.1);
    }
    ReindexMoves(x, Key(at), prev, info, h, Key(k));
  }

  lemma StepSound(s: Feed, e: Event)
    requires Sound(s) && Possible(s, e)
    ensures Sound(Step(s, e))
  {
    match e
    case Set(k, info) =>
      var prev := Some(Cached(s.caches, k));
      ReindexNoneEmpty(s.index, Key(k), prev, info);
      assert IsKey(Key(k));
      forall h, key | key in PathsWith(Reindex(s.index, Key(k), prev, info), h) ensures IsKey(key) {
        ReindexMoves(s.index, Key(k), prev, info, h, key);
      }
    case Export(k) =>
      ReindexNoneEmpty(s.index, Key(k), None, Some(s.pending[k]));
      assert IsKey(Key(k));
      forall h, key | key in PathsWith(Reindex(s.index, Key(k), None, Some(s.pending[k])), h) ensures IsKey(key) {
        ReindexMoves(s.index, Key(k), None, Some(s.pending[k]), h, key);
      }
    case _ =>
  }

  lemma ElsewhereSettled(s: Feed, e: Event, k: Pair)
    requires Sound(s) && Possible(s, e) && IsPair(k) && (e.Set? || e.Export?) && e.at != k
    ensures Settled(Step(s, e), k) <==> Settled(s, k)
  {
    var s' := Step(s, e);
    forall h ensures Key(k) in PathsWith(s'.index, h) <==> Key(k) in PathsWith(s.index, h) {
      if e.Export? {
        ReindexElsewhere(s.index, e.at, None, Some(s.pending[e.at]), k, h);
      } else if e.at.0 in s.live {
        ReindexElsewhere(s.index, e.at, Some(Cached(s.caches, e.at)), e.info, k, h);
      }
    }
    assert Absent(s', k) <==> Absent(s, k);
    assert Agrees(s', k) <==> Agrees(s, k);
  }

  lemma SetSettles(s: Feed, k: Pair, info: Option<FileInfo>)
    requires Sound(s) && IsPair(k) && Settled(s, k)
    ensures k.0 in s.live ==> Agrees(Step(s, Set(k, info)), k)
    ensures Settled(Step(s, Set(k, info)), k) <==> Harmless(s, Set(k, info), k)
  {
    var s' := Step(s, Set(k, info));
    var prev := Some(Cached(s.caches, k));
    if k.0 in s.live {
      forall h ensures Key(k) in PathsWith(s'.index, h) <==> info.Some? && info.value.hash == h {
        ReindexMoves(s.index, Key(k), prev, info, h, Key(k));
      }
    } else if Absent(s, k) {
      assert Absent(s', k);
    } else {
      var h :| Key(k) in PathsWith(s.index, h);
      assert Key(k) in PathsWith(s'.index, h) && s.caches[k].hash == h;
    }
  }

  lemma ExportSettles(s: Feed, k: Pair)
    requires Sound(s) && IsPair(k) && Settled(s, k) && k in s.pending
    ensures Settled(Step(s, Export(k)), k) <==> Harmless(s, Export(k), k)
    ensures Settled(Step(s, Export(k)), k) ==> Agrees(Step(s, Export(k)), k)
  {
    var s' := Step(s, Export(k));
    var info := s.pending[k];
    forall h ensures Key(k) in PathsWith(s'.index, h) <==> info.hash == h || Key(k) in PathsWith(s.index, h) {
      ReindexMoves(s.index, Key(k), None, Some(info), h, Key(k));
    }
    assert Key(k) in PathsWith(s'.index, info.hash);
  }

  /** A step puts a settled path out of step exactly when it is a stale export of it, or a change of it
      that no listener hears although the index has it. */
  lemma StaysSettledIff(s: Feed, e: Event, k: Pair)
    requires Sound(s) && Possible(s, e) && IsPair(k) && Settled(s, k)
    ensures Settled(Step(s, e), k) <==> Harmless(s, e, k)
  {
    match e
    case Set(at, info) => if at == k { SetSettles(s, k, info); } else { ElsewhereSettled(s, e, k); }
    case Export(at) => if at == k { ExportSettles(s, k); } else { ElsewhereSettled(s, e, k); }
    case Register(share) => assert Agrees(Step(s, e), k) <==> Agrees(s, k);
    case Cancel(share) => assert Agrees(Step(s, e), k) <==> Agrees(s, k);
  }

  /** The path is not set between a snapshot and its export, nor unheard once it is indexed. */
  ghost predicate Quiet(s: Feed, e: Event, k: Pair) {
    e.Set? && e.at == k ==> k !in s.pending && (k.0 in s.live || Absent(s, k))
  }

  ghost predicate QuietRun(s: Feed, run: seq<Event>, k: Pair)
    requires PossibleRun(s, run)
    decreases |run|
  {
    run == [] || (Quiet(s, run[0], k) && QuietRun(Step(s, run[0]), run[1..], k))
  }

  /** Whatever the other paths do in between, a path left alone at those times is right at the end. */
  lemma {:induction false} QuietPathIsRight(s: Feed, run: seq<Event>, k: Pair)
    requires PossibleRun(s, run) && QuietRun(s, run, k) && Sound(s) && IsPair(k) && Settled(s, k)
    requires k in s.pending ==> k in s.caches && s.caches[k] == s.pending[k]
    ensures Sound(Run(s, run)) && Settled(Run(s, run), k)
    ensures k.0 in Run(s, run).live && k !in Run(s, run).pending ==> Agrees(Run(s, run), k)
    decreases |run|
  {
    if run != [] {
      StepSound(s, run[0]);
      StaysSettledIff(s, run[0], k);
      QuietPathIsRight(Step(s, run[0]), run[1..], k);
    }
  }

  ghost predicate IsListed(s: Feed, h: string, key: string) {
    exists k :: k in s.caches && s.caches[k].hash == h && key == Key(k)
  }

  /** The index is the exact inverse of the caches. */
  ghost predicate IsInverse(s: Feed) {
    NoneEmpty(s.index) && forall h, key :: key in PathsWith(s.index, h) <==> IsListed(s, h, key)
  }

  /** With every share registered and exported, and no path set at those times, the index is the exact
      inverse of the caches. */
  lemma SerialRunIsInverse(run: seq<Event>)
    requires PossibleRun(NOTHING, run) && forall k :: IsPair(k) ==> QuietRun(NOTHING, run, k)
    requires Run(NOTHING, run).pending == map[]
    requires forall k :: k in Run(NOTHING, run).caches ==> k.0 in Run(NOTHING, run).live
    ensures IsInverse(Run(NOTHING, run))
  {
    var s := Run(NOTHING, run);
    QuietPathIsRight(NOTHING, run, ("", ""));
    forall k: Pair | IsPair(k) ensures Agrees(s, k) {
      QuietPathIsRight(NOTHING, run, k);
    }
    forall h, key ensures key in PathsWith(s.index, h) <==> IsListed(s, h, key) {
      if key in PathsWith(s.index, h) {
        assert IsKey(key);
        var share, path :| ValidPair(share, path) && key == KeyOf(share, path);
        assert Agrees(s, (share, path)) && key == Key((share, path));
      }
      if IsListed(s, h, key) {
        var k :| k in s.caches && s.caches[k].hash == h && key == Key(k);
        assert Agrees(s, k);
      }
    }
  }

  lemma RunsOn(s: Feed, e: Event, rest: seq<Event>)
    requires Possible(s, e) && PossibleRun(Step(s, e), rest)
    ensures PossibleRun(s, [e] + rest) && Run(s, [e] + rest) == Run(Step(s, e), rest)
  {
  }

  /** A set that overtakes the export leaves the path under both hashes, and its deletion leaves the
      path under the exported one for good. */
  lemma LateExportStays(k: Pair, before: FileInfo, after: FileInfo)
    requires IsPair(k) && before.hash != after.hash
    ensures var run := [Set(k, Some(before))] + ([Register(k.0)]
        + ([Set(k, Some(after))] + ([Export(k)] + ([Set(k, None)] + []))));
      PossibleRun(NOTHING, run) && Run(NOTHING, run) == Feed(map[], map[], {k.0}, map[before.hash := {Key(k)}])
  {
    var s1 := Step(NOTHING, Set(k, Some(before)));
    var s2 := Step(s1, Register(k.0));
    var s3 := Step(s2, Set(k, Some(after)));
    assert s2.index == map[] && Removed(map[], Key(k), Some(before)) == map[];
    assert {} + {Key(k)} == {Key(k)};
    assert Cached(s2.caches, k) == before;
    assert s3.index == Added(map[], Key(k), Some(after));
    assert s3.index == map[after.hash := {Key(k)}] && s3.pending == map[k := before];
    var s4 := Step(s3, Export(k));
    assert s4.index == map[after.hash := {Key(k)}, before.hash := {Key(k)}] && s4.pending == map[];
    var s5 := Step(s4, Set(k, None));
    assert s5 == Feed(map[], map[], {k.0}, map[before.hash := {Key(k)}]);
    RunsOn(s4, Set(k, None), []);
    RunsOn(s3, Export(k), [Set(k, None)] + []);
    RunsOn(s2, Set(k, Some(after)), [Export(k)] + ([Set(k, None)] + []));
    RunsOn(s1, Register(k.0), [Set(k, Some(after))] + ([Export(k)] + ([Set(k, None)] + [])));
    RunsOn(NOTHING, Set(k, Some(before)),
           [Register(k.0)] + ([Set(k, Some(after))] + ([Export(k)] + ([Set(k, None)] + []))));
  }
}
