/** filescanner/filescanner.go: the scanner's cache of file infos, its listeners, and the passes
    that bring the cache in step with a filesystem. */
module Scanner {
  import opened Paths
  import opened FileIndex

  // ---------------------------------------------------------------------------------------
  // The filesystem
  // ---------------------------------------------------------------------------------------

  /** Regular holds the file's true size, hash and modification time. */
  datatype Node = Regular(info: FileInfo) | Special | Folder

  type Filesystem = map<Path, Node>

  predicate FsName(n: string) {
    n != "" && n != "." && n != ".." && Free(n, '/')
  }

  ghost predicate ValidFs(fs: Filesystem) {
    && [] in fs && fs[[]] == Folder
    && forall p :: p in fs && p != [] ==> FsName(Last(p)) && Init(p) in fs && fs[Init(p)] == Folder
  }

  /** Line 237. */
  predicate Hidden(n: string) {
    n != "" && n[0] == '.' && n != "." && n != ".."
  }

  predicate Visible(fs: Filesystem, p: Path) {
    p in fs && fs[p].Regular? && forall i :: 0 <= i < |p| ==> !Hidden(p[i])
  }

  /** The relative path under which a file is cached. */
  function Rel(p: Path): string {
    Join(p, '/')
  }

  ghost predicate VisibleAt(fs: Filesystem, r: string) {
    Visible(fs, Split(r, '/'))
  }

  lemma {:induction false} FsNames(fs: Filesystem, p: Path)
    requires ValidFs(fs) && p in fs
    ensures forall i :: 0 <= i < |p| ==> FsName(p[i])
    decreases |p|
  {
    if p != [] {
      FsNames(fs, Init(p));
      forall i | 0 <= i < |p| ensures FsName(p[i]) {
        assert p[i] == if i < |p| - 1 then Init(p)[i] else Last(p);
      }
    }
  }

  lemma RelOf(fs: Filesystem, p: Path)
    requires ValidFs(fs) && p in fs && p != []
    ensures Split(Rel(p), '/') == p
  {
    FsNames(fs, p);
    SplitOfJoin(p, '/');
  }

  lemma RelInjective(fs: Filesystem, p: Path, q: Path)
    requires ValidFs(fs) && p in fs && q in fs && p != [] && q != [] && Rel(p) == Rel(q)
    ensures p == q
  {
    RelOf(fs, p);
    RelOf(fs, q);
  }

  // ---------------------------------------------------------------------------------------
  // The walk
  // ---------------------------------------------------------------------------------------

  ghost function Below(fs: Filesystem, dir: Path): set<Path> {
    set p | p in fs && dir <= p
  }

  lemma FewerBelow(fs: Filesystem, dir: Path, n: string)
    requires dir in fs
    ensures |Below(fs, Child(dir, n))| < |Below(fs, dir)|
  {
    assert |Child(dir, n)| == |dir| + 1;
    assert dir in Below(fs, dir) && dir !in Below(fs, Child(dir, n));
    assert Below(fs, Child(dir, n)) < Below(fs, dir);
    Smaller(Below(fs, Child(dir, n)), Below(fs, dir));
  }

  lemma {:induction false} Smaller<T>(a: set<T>, b: set<T>)
    requires a < b
    ensures |a| < |b|
  {
    var x :| x in b && x !in a;
    AtMost(a, b - {x});
  }

  /** What a walk of dir has visited when the names left to do are `todo`. */
  ghost predicate Visited(fs: Filesystem, dir: Path, visited: seq<Path>, todo: set<string>) {
    && NoRepeats(visited)
    && forall p :: p in visited <==> Visible(fs, p) && dir < p && p[|dir|] !in todo
  }

  lemma VisitedOne(fs: Filesystem, dir: Path, visited: seq<Path>, todo: set<string>, n: string, more: seq<Path>)
    requires Visited(fs, dir, visited, todo) && n in todo && NoRepeats(more)
    requires forall p :: p in more <==> Visible(fs, p) && Child(dir, n) <= p
    ensures Visited(fs, dir, visited + more, todo - {n})
  {
    forall p ensures p in visited + more <==> Visible(fs, p) && dir < p && p[|dir|] !in todo - {n} {
      if dir < p && p[|dir|] == n {
        NextStep(dir, p);
      }
      if p in more {
        assert Child(dir, n)[|dir|] == n;
      }
    }
    forall i, j | 0 <= i < j < |visited + more| ensures (visited + more)[i] != (visited + more)[j] {
      if i < |visited| <= j {
        assert (visited + more)[i] in visited && (visited + more)[j] in more;
      }
    }
  }

  /** Lines 233-247 for one directory entry: hidden ones are skipped with all that is below them. */
  method WalkEntry(fs: Filesystem, dir: Path, n: string) returns (more: seq<Path>)
    requires ValidFs(fs) && dir in fs && fs[dir] == Folder && Child(dir, n) in fs
    requires forall i :: 0 <= i < |dir| ==> !Hidden(dir[i])
    ensures NoRepeats(more) && forall p :: p in more <==> Visible(fs, p) && Child(dir, n) <= p
    decreases |Below(fs, dir)|, 0
  {
    var p := Child(dir, n);
    more := [];
    if Hidden(n) {
      HiddenBelow(fs, p);
    } else if fs[p] == Folder {
      FewerBelow(fs, dir, n);
      assert forall i :: 0 <= i < |p| ==> p[i] == if i < |dir| then dir[i] else n;
      more := Walk(fs, p);
      OnlyBelowFolder(fs, p);
    } else {
      NothingBelow(fs, p);
      if fs[p].Regular? {
        assert forall i :: 0 <= i < |p| ==> p[i] == if i < |dir| then dir[i] else n;
        assert Visible(fs, p);
        more := [p];
      }
    }
  }

  /** Lines 228-249: every regular file without a hidden component is visited once, in some order. */
  method Walk(fs: Filesystem, dir: Path) returns (visited: seq<Path>)
    requires ValidFs(fs) && dir in fs && fs[dir] == Folder
    requires forall i :: 0 <= i < |dir| ==> !Hidden(dir[i])
    ensures Visited(fs, dir, visited, {})
    decreases |Below(fs, dir)|, 1
  {
    visited := [];
    var todo := set p | p in fs && p != [] && Init(p) == dir :: Last(p);
    StartOfWalk(fs, dir, todo);
    while todo != {}
      invariant Visited(fs, dir, visited, todo)
      invariant forall n :: n in todo ==> Child(dir, n) in fs
      decreases todo
    {
      var n :| n in todo;
      var more := WalkEntry(fs, dir, n);
      VisitedOne(fs, dir, visited, todo, n, more);
      visited := visited + more;
      todo := todo - {n};
    }
  }

  lemma StartOfWalk(fs: Filesystem, dir: Path, todo: set<string>)
    requires ValidFs(fs) && todo == set p | p in fs && p != [] && Init(p) == dir :: Last(p)
    ensures Visited(fs, dir, [], todo)
    ensures forall n :: n in todo ==> Child(dir, n) in fs
  {
    forall p | Visible(fs, p) && dir < p ensures p[|dir|] in todo {
      NextStep(dir, p);
      Ancestor(fs, p, Child(dir, p[|dir|]));
    }
    forall n | n in todo ensures Child(dir, n) in fs {
      var p :| p in fs && p != [] && Init(p) == dir && Last(p) == n;
      IsChild(p);
    }
  }

  lemma {:induction false} Ancestor(fs: Filesystem, p: Path, d: Path)
    requires ValidFs(fs) && p in fs && d <= p
    ensures d in fs && (d != p ==> fs[d] == Folder)
    decreases |p|
  {
    if d != p {
      Ancestor(fs, Init(p), d);
    }
  }

  lemma OnlyBelowFolder(fs: Filesystem, d: Path)
    requires d in fs && fs[d] == Folder
    ensures forall p :: Visible(fs, p) && d <= p ==> d < p
  {
    forall p | Visible(fs, p) && d <= p ensures d < p {
      assert |p| == |d| ==> p == d;
    }
  }

  lemma HiddenBelow(fs: Filesystem, d: Path)
    requires d != [] && Hidden(Last(d))
    ensures forall p :: Visible(fs, p) ==> !(d <= p)
  {
  }

  lemma NothingBelow(fs: Filesystem, d: Path)
    requires ValidFs(fs) && d in fs && fs[d] != Folder
    ensures forall p :: Visible(fs, p) && d <= p ==> p == d
  {
    forall p | Visible(fs, p) && d <= p ensures p == d {
      Ancestor(fs, p, d);
    }
  }

  // ---------------------------------------------------------------------------------------
  // The cache after a pass
  // ---------------------------------------------------------------------------------------

  type Cache = map<string, FileInfo>

  function Lookup(c: Cache, r: string): Option<FileInfo> {
    if r in c then Some(c[r]) else None
  }

  predicate SameStat(a: FileInfo, b: FileInfo) {
    a.size == b.size && a.mtime == b.mtime
  }

  function InfoAt(fs: Filesystem, r: string): FileInfo
    requires Visible(fs, Split(r, '/'))
  {
    fs[Split(r, '/')].info
  }

  /** What normalPass leaves at r: a cached info with the right size and time is trusted, else the
      file is hashed, and a file that cannot be hashed keeps what was cached. */
  ghost function AfterNormal(c: Cache, fs: Filesystem, readable: set<string>, r: string): Option<FileInfo> {
    if !VisibleAt(fs, r) then None
    else if r in c && SameStat(c[r], InfoAt(fs, r)) then Some(c[r])
    else if r in readable then Some(InfoAt(fs, r))
    else Lookup(c, r)
  }

  /** What fastPass leaves at r. */
  ghost function AfterFast(c: Cache, fs: Filesystem, seed: Cache, r: string): Option<FileInfo> {
    if VisibleAt(fs, r) && r in seed && SameStat(seed[r], InfoAt(fs, r)) then Some(seed[r]) else Lookup(c, r)
  }

  ghost predicate IsAfterNormal(c': Cache, c: Cache, fs: Filesystem, readable: set<string>) {
    forall r :: Lookup(c', r) == AfterNormal(c, fs, readable, r)
  }

  ghost predicate IsAfterFast(c': Cache, c: Cache, fs: Filesystem, seed: Cache) {
    forall r :: Lookup(c', r) == AfterFast(c, fs, seed, r)
  }

  ghost function Truth(fs: Filesystem, r: string): Option<FileInfo> {
    if VisibleAt(fs, r) then Some(InfoAt(fs, r)) else None
  }

  ghost predicate IsTrue(c: Cache, fs: Filesystem) {
    forall r :: Lookup(c, r) == Truth(fs, r)
  }

  /** A cached info with the right size and time also has the right hash. */
  ghost predicate Faithful(c: Cache, fs: Filesystem) {
    forall r :: VisibleAt(fs, r) && r in c && SameStat(c[r], InfoAt(fs, r)) ==> c[r] == InfoAt(fs, r)
  }

  /** Every file whose cached info does not match can be hashed. */
  ghost predicate Hashable(c: Cache, fs: Filesystem, readable: set<string>) {
    forall r :: VisibleAt(fs, r) && !(r in c && SameStat(c[r], InfoAt(fs, r))) ==> r in readable
  }

  /** The pass ends with the truth exactly when what it trusts is faithful and what it must hash can
      be hashed. */
  lemma NormalPassTrueIff(c: Cache, c': Cache, fs: Filesystem, readable: set<string>)
    requires IsAfterNormal(c', c, fs, readable)
    ensures IsTrue(c', fs) <==> Faithful(c, fs) && Hashable(c, fs, readable)
  {
    if IsTrue(c', fs) {
      forall r | VisibleAt(fs, r) && r in c && SameStat(c[r], InfoAt(fs, r)) ensures c[r] == InfoAt(fs, r) {
        assert Lookup(c', r) == Truth(fs, r);
      }
      forall r | VisibleAt(fs, r) && !(r in c && SameStat(c[r], InfoAt(fs, r))) ensures r in readable {
        assert Lookup(c', r) == Truth(fs, r);
      }
    }
  }

  /** A second pass over the same filesystem changes nothing, whatever failed in the first. */
  lemma SecondPassSilent(c: Cache, c': Cache, c'': Cache, fs: Filesystem, readable: set<string>)
    requires IsAfterNormal(c', c, fs, readable) && IsAfterNormal(c'', c', fs, readable)
    ensures c'' == c'
  {
    forall r ensures Lookup(c'', r) == Lookup(c', r) {
      assert Lookup(c', r) == AfterNormal(c, fs, readable, r);
    }
    assert forall r :: (r in c'' <==> r in c') && (r in c'' ==> c''[r] == c'[r]) by {
      forall r ensures (r in c'' <==> r in c') && (r in c'' ==> c''[r] == c'[r]) {
        assert Lookup(c'', r) == Lookup(c', r);
      }
    }
  }

  /** With faithful infos and no hashing errors, fastPass beforehand makes no difference. */
  lemma FastPassMakesNoDifference(seed: Cache, fast: Cache, c1: Cache, c2: Cache, fs: Filesystem, readable: set<string>)
    requires IsAfterFast(fast, map[], fs, seed) && Faithful(seed, fs)
    requires IsAfterNormal(c1, fast, fs, readable) && IsAfterNormal(c2, map[], fs, readable)
    requires Hashable(map[], fs, readable)
    ensures c1 == c2 && IsTrue(c1, fs)
  {
    assert Faithful(fast, fs) by {
      forall r | VisibleAt(fs, r) && r in fast && SameStat(fast[r], InfoAt(fs, r)) ensures fast[r] == InfoAt(fs, r) {
        assert Lookup(fast, r) == AfterFast(map[], fs, seed, r);
      }
    }
    NormalPassTrueIff(fast, c1, fs, readable);
    NormalPassTrueIff(map[], c2, fs, readable);
    forall r ensures (r in c1 <==> r in c2) && (r in c1 ==> c1[r] == c2[r]) {
      assert Lookup(c1, r) == Truth(fs, r) && Lookup(c2, r) == Truth(fs, r);
    }
  }

  // ---------------------------------------------------------------------------------------
  // The passes in terms of names, sizes and times
  // ---------------------------------------------------------------------------------------

  /** p is a regular file, and no component of its path begins with a dot. */
  ghost predicate Listed(fs: Filesystem, p: Path) {
    p in fs && fs[p].Regular? && forall i :: 0 <= i < |p| ==> p[i] != "" && p[i][0] != '.'
  }

  lemma ListedIsVisible(fs: Filesystem, p: Path)
    requires ValidFs(fs) && p in fs
    ensures Listed(fs, p) <==> Visible(fs, p)
    ensures Listed(fs, p) ==> Split(Join(p, '/'), '/') == p && VisibleAt(fs, Join(p, '/'))
    ensures Listed(fs, p) ==> InfoAt(fs, Join(p, '/')) == fs[p].info
  {
    FsNames(fs, p);
    if p != [] {
      RelOf(fs, p);
    }
  }

  lemma VisibleAtIsListed(fs: Filesystem, r: string)
    requires ValidFs(fs)
    ensures VisibleAt(fs, r) <==> Listed(fs, Split(r, '/'))
  {
    if Split(r, '/') in fs {
      ListedIsVisible(fs, Split(r, '/'));
    }
  }

  /** What a normal pass makes of a listed file, from its own info and what was cached. */
  ghost predicate NormalEntry(c': Cache, c: Cache, r: string, info: FileInfo, canRead: bool) {
    && (r in c && c[r].size == info.size && c[r].mtime == info.mtime ==> r in c' && c'[r] == c[r])
    && (canRead && (r !in c || c[r].size != info.size || c[r].mtime != info.mtime) ==> r in c' && c'[r] == info)
    && (!canRead ==> Lookup(c', r) == Lookup(c, r))
    && (canRead ==> r in c' && c'[r].size == info.size && c'[r].mtime == info.mtime)
  }

  lemma NormalInPlainTerms(c': Cache, c: Cache, fs: Filesystem, readable: set<string>)
    requires ValidFs(fs) && IsAfterNormal(c', c, fs, readable)
    ensures forall p :: Listed(fs, p) ==> NormalEntry(c', c, Join(p, '/'), fs[p].info, Join(p, '/') in readable)
    ensures forall r :: r in c' ==> Listed(fs, Split(r, '/'))
  {
    forall p | Listed(fs, p) ensures NormalEntry(c', c, Join(p, '/'), fs[p].info, Join(p, '/') in readable) {
      ListedIsVisible(fs, p);
      assert Lookup(c', Join(p, '/')) == AfterNormal(c, fs, readable, Join(p, '/'));
    }
    forall r | r in c' ensures Listed(fs, Split(r, '/')) {
      VisibleAtIsListed(fs, r);
      assert Lookup(c', r) == AfterNormal(c, fs, readable, r);
    }
  }

  /** The seed has an entry for a listed file whose size and time are the file's. */
  ghost predicate SeedFits(seed: Cache, fs: Filesystem, r: string) {
    var p := Split(r, '/');
    r in seed && Listed(fs, p) && seed[r].size == fs[p].info.size && seed[r].mtime == fs[p].info.mtime
  }

  lemma FastInPlainTerms(c': Cache, c: Cache, fs: Filesystem, seed: Cache)
    requires ValidFs(fs) && IsAfterFast(c', c, fs, seed)
    ensures forall r :: SeedFits(seed, fs, r) ==> r in c' && c'[r] == seed[r]
    ensures forall r :: !SeedFits(seed, fs, r) ==> Lookup(c', r) == Lookup(c, r)
  {
    forall r
      ensures SeedFits(seed, fs, r) ==> r in c' && c'[r] == seed[r]
      ensures !SeedFits(seed, fs, r) ==> Lookup(c', r) == Lookup(c, r)
    {
      VisibleAtIsListed(fs, r);
      assert Lookup(c', r) == AfterFast(c, fs, seed, r);
    }
  }

  // ---------------------------------------------------------------------------------------
  // Listeners
  // ---------------------------------------------------------------------------------------

  /** One call of a listener's callback; `prev` is nil in an export. */
  datatype Call = Call(listener: nat, path: string, info: Option<FileInfo>, prev: Option<FileInfo>)

  /** The zero value that Go's map lookup gives for a missing path. */
  function Previous(c: Cache, r: string): FileInfo {
    if r in c then c[r] else ZERO
  }

  /** Each listener is called once. */
  function Broadcast(ls: seq<nat>, r: string, info: Option<FileInfo>, prev: FileInfo): seq<Call> {
    seq(|ls|, i requires 0 <= i < |ls| => Call(ls[i], r, info, Some(prev)))
  }

  /** The calls of a broadcast, one by one. */
  lemma BroadcastSays(heard: seq<Call>, ls: seq<nat>, path: string, fi: Option<FileInfo>, c: Cache)
    ensures var calls := heard + Broadcast(ls, path, fi, Previous(c, path));
      && |calls| == |heard| + |ls| && calls[..|heard|] == heard
      && forall i :: 0 <= i < |ls| ==> IsTold(calls[|heard| + i], ls[i], path, fi, c)
  {
  }

  /** The listener is told of the path's new info and of what was cached before, or the zero value. */
  ghost predicate IsTold(call: Call, l: nat, path: string, fi: Option<FileInfo>, c: Cache) {
    && call.listener == l && call.path == path && call.info == fi
    && call.prev == Some(if path in c then c[path] else FileInfo(0, "", 0))
  }

  /** The listeners left are the live ones, each once; without cancelled ones they stay in order. */
  ghost predicate Survivors(ls': seq<nat>, ls: seq<nat>, cancelled: set<nat>) {
    && NoRepeats(ls') && (forall l :: l in ls' <==> l in ls && l !in cancelled)
    && ((forall l :: l in ls ==> l !in cancelled) ==> ls' == ls)
  }

  /** Since a pass began with cache `was`, listeners ls and calls `heard`: `changed` names, each
      once, the paths whose entry is different now, and each was announced once to every live
      listener. */
  ghost predicate IsAnnounced(c: Cache, now: seq<nat>, calls: seq<Call>, cancelled: set<nat>,
                              was: Cache, ls: seq<nat>, heard: seq<Call>, changed: seq<string>) {
    && NoRepeats(changed) && NoRepeats(now)
    && (forall r :: r in changed <==> Lookup(c, r) != Lookup(was, r))
    && (if changed == [] then now == ls else Survivors(now, ls, cancelled))
    && calls == heard + Announcement(now, changed, was, c)
  }

  lemma AnnouncementGrows(c: Cache, a: seq<nat>, b: seq<nat>, was: Cache, changed: seq<string>, r: string,
                          fi: Option<FileInfo>, c': Cache)
    requires r !in changed && (a == b || changed == [])
    requires Lookup(c, r) == Lookup(was, r)
    requires c' == if fi.Some? then c[r := fi.value] else c - {r}
    ensures Announcement(b, changed + [r], was, c')
         == Announcement(a, changed, was, c) + Broadcast(b, r, fi, Previous(c, r))
  {
    SameAnnouncement(b, changed, was, c, c');
    assert (changed + [r])[..|changed|] == changed;
    assert Previous(c, r) == Previous(was, r);
  }

  lemma ChangedGrow(c: Cache, was: Cache, changed: seq<string>, r: string, fi: Option<FileInfo>, c': Cache)
    requires NoRepeats(changed) && forall q :: q in changed <==> Lookup(c, q) != Lookup(was, q)
    requires r !in changed && fi != Lookup(was, r)
    requires c' == if fi.Some? then c[r := fi.value] else c - {r}
    ensures NoRepeats(changed + [r]) && forall q :: q in changed + [r] <==> Lookup(c', q) != Lookup(was, q)
  {
  }

  lemma AnnouncedOne(c: Cache, a: seq<nat>, said: seq<Call>, cancelled: set<nat>,
                     was: Cache, ls: seq<nat>, heard: seq<Call>, changed: seq<string>,
                     r: string, fi: Option<FileInfo>, c': Cache, b: seq<nat>, said': seq<Call>)
    requires IsAnnounced(c, a, said, cancelled, was, ls, heard, changed)
    requires r !in changed && fi != Lookup(was, r)
    requires c' == if fi.Some? then c[r := fi.value] else c - {r}
    requires Survivors(b, a, cancelled) && said' == said + Broadcast(b, r, fi, Previous(c, r))
    ensures IsAnnounced(c', b, said', cancelled, was, ls, heard, changed + [r])
  {
    SurvivorsAgain(a, b, ls, cancelled);
    AnnouncementGrows(c, a, b, was, changed, r, fi, c');
    ChangedGrow(c, was, changed, r, fi, c');
  }

  /** The pass has looked at the paths done so far. */
  ghost predicate IsProgress(c: Cache, was: Cache, fs: Filesystem, readable: set<string>, done: set<string>) {
    forall r :: Lookup(c, r) == if r in done then AfterNormal(was, fs, readable, r) else Lookup(was, r)
  }

  ghost predicate IsFastProgress(c: Cache, was: Cache, fs: Filesystem, seed: Cache, done: set<string>) {
    forall r :: Lookup(c, r) == if r in done then AfterFast(was, fs, seed, r) else Lookup(was, r)
  }

  lemma AllDone(c: Cache, was: Cache, fs: Filesystem, readable: set<string>, done: set<string>)
    requires IsProgress(c, was, fs, readable, done) && was.Keys <= done && forall r :: VisibleAt(fs, r) ==> r in done
    ensures IsAfterNormal(c, was, fs, readable)
  {
  }

  class Scanner {
    var fileCache: Cache
    var listeners: seq<nat>
    /** The listeners whose context is done. */
    var cancelled: set<nat>
    /** Every callback made so far. */
    var calls: seq<Call>

    constructor ()
      ensures fileCache == map[] && listeners == [] && cancelled == {} && calls == []
    {
      fileCache, listeners, cancelled, calls := map[], [], {}, [];
    }

    /** Lines 83-103: the listener loop removes a cancelled listener by moving the last one into its
        place and looking at that place again. */
    method Set(path: string, fi: Option<FileInfo>)
      requires NoRepeats(listeners)
      modifies this`fileCache, this`listeners, this`calls
      ensures fileCache == if fi.Some? then old(fileCache)[path := fi.value] else old(fileCache) - {path}
      ensures Survivors(listeners, old(listeners), cancelled)
      ensures calls == old(calls) + Broadcast(listeners, path, fi, Previous(old(fileCache), path))
      ensures |calls| == |old(calls)| + |listeners| && calls[..|old(calls)|] == old(calls)
      ensures forall i {:trigger listeners[i]} :: 0 <= i < |listeners| ==>
        IsTold(calls[|old(calls)| + i], listeners[i], path, fi, old(fileCache))
    {
      var prev := Previous(fileCache, path);
      fileCache := if fi.Some? then fileCache[path := fi.value] else fileCache - {path};
      ghost var before := listeners;
      var i := 0;
      while i < |listeners|
        invariant fileCache == if fi.Some? then old(fileCache)[path := fi.value] else old(fileCache) - {path}
        invariant 0 <= i <= |listeners| && NoRepeats(listeners)
        invariant forall l :: l in listeners ==> l in before
        invariant forall l :: l in before && l !in cancelled ==> l in listeners
        invariant forall k :: 0 <= k < i ==> listeners[k] !in cancelled
        invariant (forall l :: l in before ==> l !in cancelled) ==> listeners == before
        invariant calls == old(calls) + Broadcast(listeners[..i], path, fi, prev)
        decreases |listeners| - i
      {
        var l := listeners[i];
        if l in cancelled {
          assert l in before;
          SwapRemove(i);
        } else {
          assert Broadcast(listeners[..i + 1], path, fi, prev) ==
            Broadcast(listeners[..i], path, fi, prev) + [Call(l, path, fi, Some(prev))];
          calls := calls + [Call(l, path, fi, Some(prev))];
          i := i + 1;
        }
      }
      assert listeners[..i] == listeners;
      BroadcastSays(old(calls), listeners, path, fi, old(fileCache));
    }

    /** Lines 96-97. */
    method SwapRemove(i: nat)
      requires i < |listeners| && NoRepeats(listeners)
      modifies this`listeners
      ensures |listeners| == |old(listeners)| - 1 && NoRepeats(listeners)
      ensures listeners[..i] == old(listeners)[..i]
      ensures forall l :: l in listeners <==> l in old(listeners) && l != old(listeners)[i]
    {
      ghost var was := listeners;
      var last := listeners[|listeners| - 1];
      listeners := listeners[i := last];
      listeners := listeners[..|listeners| - 1];
      forall l | l in was && l != was[i] ensures l in listeners {
        var k :| 0 <= k < |was| && was[k] == l;
        if k == |was| - 1 {
          assert listeners[i] == l;
        } else {
          assert listeners[k] == l;
        }
      }
      forall l | l in listeners ensures l in was && l != was[i] {
        var k :| 0 <= k < |listeners| && listeners[k] == l;
        assert l == if k == i then was[|was| - 1] else was[k];
      }
    }

    // -------------------------------------------------------------------------------------
    // The passes
    // -------------------------------------------------------------------------------------

    ghost predicate Announced(was: Cache, ls: seq<nat>, heard: seq<Call>, changed: seq<string>)
      reads this
    {
      IsAnnounced(fileCache, listeners, calls, cancelled, was, ls, heard, changed)
    }

    /** A change of a path that did not change before in this pass. */
    method SetChanged(r: string, fi: Option<FileInfo>, ghost was: Cache, ghost ls: seq<nat>, ghost heard: seq<Call>,
                      ghost changed: seq<string>)
      requires Announced(was, ls, heard, changed)
      requires r !in changed && fi != Lookup(was, r)
      modifies this`fileCache, this`listeners, this`calls
      ensures Announced(was, ls, heard, changed + [r])
      ensures fileCache == if fi.Some? then old(fileCache)[r := fi.value] else old(fileCache) - {r}
    {
      ghost var c, a := fileCache, listeners;
      ghost var said := calls;
      assert Lookup(c, r) == Lookup(was, r);
      Set(r, fi);
      AnnouncedOne(c, a, said, cancelled, was, ls, heard, changed, r, fi, fileCache, listeners, calls);
    }

    ghost predicate Progress(was: Cache, fs: Filesystem, readable: set<string>, done: set<string>)
      reads this
    {
      IsProgress(fileCache, was, fs, readable, done)
    }

    /** Lines 163-180 for one visited file. */
    method Visit(fs: Filesystem, p: Path, readable: set<string>, ghost was: Cache, ghost ls: seq<nat>,
                 ghost heard: seq<Call>, ghost done: set<string>, ghost changed: seq<string>)
      returns (ghost changed': seq<string>)
      requires ValidFs(fs) && Visible(fs, p) && p != []
      requires Progress(was, fs, readable, done) && Rel(p) !in done
      requires Announced(was, ls, heard, changed)
      modifies this`fileCache, this`listeners, this`calls
      ensures Progress(was, fs, readable, done + {Rel(p)}) && Announced(was, ls, heard, changed')
    {
      changed' := changed;
      var r, info := Rel(p), fs[p].info;
      RelOf(fs, p);
      assert Lookup(fileCache, r) == Lookup(was, r);
      if r in fileCache && SameStat(fileCache[r], info) {
        return;
      }
      if r !in readable {
        return;
      }
      SetChanged(r, Some(info), was, ls, heard, changed);
      changed' := changed + [r];
    }

    /** Lines 186-188 for one path. */
    method DropMissing(fn: string, ghost fs: Filesystem, ghost readable: set<string>, ghost was: Cache,
                       ghost ls: seq<nat>, ghost heard: seq<Call>, ghost done: set<string>, ghost changed: seq<string>)
      returns (ghost changed': seq<string>)
      requires fn in was && fn !in done && !VisibleAt(fs, fn)
      requires Progress(was, fs, readable, done) && Announced(was, ls, heard, changed)
      modifies this`fileCache, this`listeners, this`calls
      ensures Progress(was, fs, readable, done + {fn}) && Announced(was, ls, heard, changed')
    {
      assert Lookup(fileCache, fn) == Lookup(was, fn);
      SetChanged(fn, None, was, ls, heard, changed);
      changed' := changed + [fn];
    }

    /** Lines 186-188. */
    method DropAll(gone: set<string>, ghost fs: Filesystem, ghost readable: set<string>, ghost was: Cache,
                   ghost ls: seq<nat>, ghost heard: seq<Call>, ghost seen: set<string>, ghost seenChanged: seq<string>)
      returns (ghost changed: seq<string>)
      requires gone == was.Keys - seen && forall r :: VisibleAt(fs, r) ==> r in seen
      requires Progress(was, fs, readable, seen) && Announced(was, ls, heard, seenChanged)
      modifies this`fileCache, this`listeners, this`calls
      ensures IsAfterNormal(fileCache, was, fs, readable) && Announced(was, ls, heard, changed)
    {
      ghost var done := seen;
      changed := seenChanged;
      var missing := gone;
      while missing != {}
        invariant Progress(was, fs, readable, done) && Announced(was, ls, heard, changed)
        invariant missing == was.Keys - done && seen <= done
        decreases missing
      {
        var fn :| fn in missing;
        changed := DropMissing(fn, fs, readable, was, ls, heard, done, changed);
        done := done + {fn};
        missing := missing - {fn};
      }
      forall r | r in was ensures r in done {
        assert r in was.Keys - done || r in done;
      }
      AllDone(fileCache, was, fs, readable, done);
    }

    /** The callback on each visited file, which also strikes it off the missing ones (lines 221-224). */
    method VisitAll(fs: Filesystem, visited: seq<Path>, readable: set<string>)
      returns (missing: set<string>, ghost changed: seq<string>)
      requires ValidFs(fs) && NoRepeats(listeners) && Visited(fs, [], visited, {})
      modifies this`fileCache, this`listeners, this`calls
      ensures Progress(old(fileCache), fs, readable, RelsOf(visited))
      ensures Announced(old(fileCache), old(listeners), old(calls), changed)
      ensures missing == old(fileCache).Keys - RelsOf(visited)
    {
      ghost var was, ls, heard := fileCache, listeners, calls;
      changed := [];
      missing := fileCache.Keys;
      for i := 0 to |visited|
        invariant Progress(was, fs, readable, RelsOf(visited[..i])) && Announced(was, ls, heard, changed)
        invariant missing == was.Keys - RelsOf(visited[..i])
      {
        var p := visited[i];
        assert p in visited;
        NotDone(fs, visited, i, RelsOf(visited[..i]));
        OneMoreRel(visited, i);
        changed := Visit(fs, p, readable, was, ls, heard, RelsOf(visited[..i]), changed);
        missing := missing - {Rel(p)};
      }
      assert visited[..|visited|] == visited;
    }

    /** Lines 162-189. `readable` are the files whose hashing succeeds. */
    method NormalPass(fs: Filesystem, readable: set<string>) returns (ghost changed: seq<string>)
      requires ValidFs(fs) && NoRepeats(listeners)
      modifies this`fileCache, this`listeners, this`calls
      ensures IsAfterNormal(fileCache, old(fileCache), fs, readable)
      ensures forall p :: Listed(fs, p) ==>
        var r, info, before := Join(p, '/'), fs[p].info, old(fileCache);
        && (r in before && before[r].size == info.size && before[r].mtime == info.mtime ==>
              r in fileCache && fileCache[r] == before[r])
        && (r in readable && (r !in before || before[r].size != info.size || before[r].mtime != info.mtime) ==>
              r in fileCache && fileCache[r] == info)
        && (r !in readable ==> Lookup(fileCache, r) == Lookup(before, r))
        && (r in readable ==> r in fileCache && fileCache[r].size == info.size && fileCache[r].mtime == info.mtime)
      ensures forall r :: r in fileCache ==> Listed(fs, Split(r, '/'))
      ensures Announced(old(fileCache), old(listeners), old(calls), changed)
      ensures AreAnnounced(calls[|old(calls)|..], listeners, changed, old(fileCache), fileCache)
    {
      ghost var was, ls, heard := fileCache, listeners, calls;
      var visited := Walk(fs, []);
      var missing;
      missing, changed := VisitAll(fs, visited, readable);
      AllVisited(fs, visited, RelsOf(visited));
      changed := DropAll(missing, fs, readable, was, ls, heard, RelsOf(visited), changed);
      NormalInPlainTerms(fileCache, was, fs, readable);
      AnnouncementSays(listeners, changed, was, fileCache);
    }

    /** Line 128. */
    method Take(r: string, f: FileInfo, ghost was: Cache, ghost ls: seq<nat>, ghost heard: seq<Call>,
                ghost changed: seq<string>)
      returns (ghost changed': seq<string>)
      requires NoRepeats(listeners) && Lookup(fileCache, r) == Lookup(was, r)
      requires was == map[] ==> Announced(was, ls, heard, changed)
      modifies this`fileCache, this`listeners, this`calls
      ensures NoRepeats(listeners) && fileCache == old(fileCache)[r := f]
      ensures was == map[] ==> Announced(was, ls, heard, changed')
    {
      ghost var c, a, said := fileCache, listeners, calls;
      Set(r, Some(f));
      changed' := changed + [r];
      if was == map[] {
        AnnouncedOne(c, a, said, cancelled, was, ls, heard, changed, r, Some(f), fileCache, listeners, calls);
      }
    }

    /** Lines 126-130 for one visited file. */
    method FastVisit(fs: Filesystem, p: Path, seed: Cache, ghost was: Cache, ghost ls: seq<nat>, ghost heard: seq<Call>,
                     ghost done: set<string>, ghost changed: seq<string>)
      returns (ghost changed': seq<string>)
      requires ValidFs(fs) && Visible(fs, p) && p != [] && Rel(p) !in done
      requires NoRepeats(listeners) && IsFastProgress(fileCache, was, fs, seed, done)
      requires was == map[] ==> Announced(was, ls, heard, changed)
      modifies this`fileCache, this`listeners, this`calls
      ensures NoRepeats(listeners) && IsFastProgress(fileCache, was, fs, seed, done + {Rel(p)})
      ensures was == map[] ==> Announced(was, ls, heard, changed')
    {
      changed' := changed;
      var r := Rel(p);
      RelOf(fs, p);
      if r in seed && SameStat(seed[r], fs[p].info) {
        changed' := Take(r, seed[r], was, ls, heard, changed);
      }
    }

    /** Lines 119-133. At start-up the cache is empty, and what is taken from the seed is announced. */
    method FastPass(fs: Filesystem, seed: Cache) returns (ghost changed: seq<string>)
      requires ValidFs(fs) && NoRepeats(listeners)
      modifies this`fileCache, this`listeners, this`calls
      ensures IsAfterFast(fileCache, old(fileCache), fs, seed) && NoRepeats(listeners)
      ensures forall r :: SeedFits(seed, fs, r) ==> r in fileCache && fileCache[r] == seed[r]
      ensures forall r :: !SeedFits(seed, fs, r) ==> Lookup(fileCache, r) == Lookup(old(fileCache), r)
      ensures old(fileCache) == map[] ==>
        |calls| >= |old(calls)| && AreAnnounced(calls[|old(calls)|..], listeners, changed, map[], fileCache)
      ensures old(fileCache) == map[] ==> Announced(map[], old(listeners), old(calls), changed)
    {
      ghost var was, ls, heard := fileCache, listeners, calls;
      changed := [];
      var visited := Walk(fs, []);
      for i := 0 to |visited|
        invariant NoRepeats(listeners) && IsFastProgress(fileCache, was, fs, seed, RelsOf(visited[..i]))
        invariant was == map[] ==> Announced(was, ls, heard, changed)
      {
        assert visited[i] in visited;
        NotDone(fs, visited, i, RelsOf(visited[..i]));
        OneMoreRel(visited, i);
        changed := FastVisit(fs, visited[i], seed, was, ls, heard, RelsOf(visited[..i]), changed);
      }
      assert visited[..|visited|] == visited;
      AllVisited(fs, visited, RelsOf(visited));
      FastInPlainTerms(fileCache, was, fs, seed);
      AnnouncementSays(listeners, changed, was, fileCache);
    }

    /** Lines 192-208 without interleaving: the listener is registered and called once for every
        cached file, unless its context is done. */
    method ContinuousExport(l: nat) returns (ghost order: seq<string>)
      requires NoRepeats(listeners) && l !in listeners
      modifies this`listeners, this`calls
      ensures listeners == old(listeners) + [l] && NoRepeats(listeners)
      ensures l in cancelled ==> calls == old(calls)
      ensures l !in cancelled ==> Lists(order, fileCache.Keys) && calls == old(calls) + Exports(l, order, fileCache)
      ensures l !in cancelled ==> |calls| == |old(calls)| + |order|
      ensures l !in cancelled ==>
        forall i {:trigger order[i]} :: 0 <= i < |order| ==> IsExport(calls[|old(calls)| + i], l, order[i], fileCache)
    {
      var cpy := fileCache;
      listeners := listeners + [l];
      order := [];
      var todo := cpy.Keys;
      while todo != {}
        invariant todo <= cpy.Keys && Lists(order, cpy.Keys - todo)
        invariant l !in cancelled ==> calls == old(calls) + Exports(l, order, cpy)
        invariant l in cancelled ==> calls == old(calls)
        invariant listeners == old(listeners) + [l]
        decreases todo
      {
        var fn :| fn in todo;
        todo := todo - {fn};
        if l in cancelled {
          return;
        }
        calls := calls + [Call(l, fn, Some(cpy[fn]), None)];
        assert Exports(l, order + [fn], cpy) == Exports(l, order, cpy) + [Call(l, fn, Some(cpy[fn]), None)];
        order := order + [fn];
      }
    }
  }

  /** The listener is told the path's cached info, and no previous one. */
  ghost predicate IsExport(call: Call, l: nat, r: string, c: Cache) {
    call.listener == l && call.path == r && r in c && call.info == Some(c[r]) && call.prev == None
  }

  function Exports(l: nat, order: seq<string>, c: Cache): seq<Call>
    requires forall r :: r in order ==> r in c
  {
    seq(|order|, i requires 0 <= i < |order| => assert order[i] in order; Call(l, order[i], Some(c[order[i]]), None))
  }

  function RelsOf(ps: seq<Path>): set<string> {
    set j | 0 <= j < |ps| :: Rel(ps[j])
  }

  lemma OneMoreRel(ps: seq<Path>, i: nat)
    requires i < |ps|
    ensures RelsOf(ps[..i + 1]) == RelsOf(ps[..i]) + {Rel(ps[i])}
  {
  }

  lemma NotDone(fs: Filesystem, visited: seq<Path>, i: nat, done: set<string>)
    requires ValidFs(fs) && Visited(fs, [], visited, {}) && i < |visited|
    requires done == RelsOf(visited[..i])
    ensures visited[i] != [] && Rel(visited[i]) !in done
  {
    assert visited[i] in visited;
    forall j | 0 <= j < i ensures Rel(visited[j]) != Rel(visited[i]) {
      assert visited[j] in visited;
      if Rel(visited[j]) == Rel(visited[i]) {
        RelInjective(fs, visited[j], visited[i]);
      }
    }
  }

  lemma AllVisited(fs: Filesystem, visited: seq<Path>, done: set<string>)
    requires ValidFs(fs) && Visited(fs, [], visited, {})
    requires done == RelsOf(visited)
    ensures forall r :: VisibleAt(fs, r) ==> r in done
  {
    forall r | VisibleAt(fs, r) ensures r in done {
      var p := Split(r, '/');
      JoinOfSplit(r, '/');
      assert p in visited;
      var j :| 0 <= j < |visited| && visited[j] == p;
      assert Rel(visited[j]) == r;
    }
  }

  /** All the calls for the changed paths. */
  function Announcement(ls: seq<nat>, changed: seq<string>, was: Cache, now: Cache): seq<Call> {
    if changed == [] then []
    else
      var r := changed[|changed| - 1];
      Announcement(ls, changed[..|changed| - 1], was, now) + Broadcast(ls, r, Lookup(now, r), Previous(was, r))
  }

  /** Every call tells one live listener of one changed path, with what is cached for it now and what was
      before, and there is one for every such pair. */
  ghost predicate AreAnnounced(calls: seq<Call>, ls: seq<nat>, changed: seq<string>, was: Cache, now: Cache) {
    && |calls| == |changed| * |ls|
    && (forall i :: 0 <= i < |calls| ==>
          && calls[i].listener in ls && calls[i].path in changed
          && (calls[i].info.Some? <==> calls[i].path in now)
          && (calls[i].info.Some? ==> calls[i].info.value == now[calls[i].path])
          && calls[i].prev.Some?
          && calls[i].prev.value == if calls[i].path in was then was[calls[i].path] else FileInfo(0, "", 0))
    && (forall l, r :: l in ls && r in changed ==> IsToldOf(calls, l, r))
  }

  ghost predicate IsToldOf(calls: seq<Call>, l: nat, r: string) {
    exists i :: 0 <= i < |calls| && calls[i].listener == l && calls[i].path == r
  }

  lemma {:induction false} AnnouncementSays(ls: seq<nat>, changed: seq<string>, was: Cache, now: Cache)
    ensures AreAnnounced(Announcement(ls, changed, was, now), ls, changed, was, now)
  {
    if changed != [] {
      var n := |changed| - 1;
      AnnouncementSays(ls, changed[..n], was, now);
      var before := Announcement(ls, changed[..n], was, now);
      var last := Broadcast(ls, changed[n], Lookup(now, changed[n]), Previous(was, changed[n]));
      var all := before + last;
      assert changed == changed[..n] + [changed[n]];
      forall l, r | l in ls && r in changed ensures IsToldOf(all, l, r) {
        if r in changed[..n] {
          assert IsToldOf(before, l, r);
          var i :| 0 <= i < |before| && before[i].listener == l && before[i].path == r;
          assert all[i] == before[i];
        } else {
          var i :| 0 <= i < |ls| && ls[i] == l;
          assert all[|before| + i] == last[i];
        }
      }
    }
  }

  lemma {:induction false} SameAnnouncement(ls: seq<nat>, changed: seq<string>, was: Cache, now: Cache, now': Cache)
    requires forall r :: r in changed ==> Lookup(now, r) == Lookup(now', r)
    ensures Announcement(ls, changed, was, now) == Announcement(ls, changed, was, now')
  {
    if changed != [] {
      SameAnnouncement(ls, changed[..|changed| - 1], was, now, now');
      assert changed[|changed| - 1] in changed;
    }
  }

  lemma SurvivorsAgain(a: seq<nat>, b: seq<nat>, ls: seq<nat>, cancelled: set<nat>)
    requires Survivors(b, a, cancelled) && (a == ls || Survivors(a, ls, cancelled))
    ensures Survivors(b, ls, cancelled) && (a == ls || b == a)
  {
  }

  /** A pass that is repeated over the same filesystem calls nobody. */
  lemma RepeatedPassCallsNobody(c: Cache, c': Cache, c'': Cache, fs: Filesystem, readable: set<string>,
                                now: seq<nat>, calls: seq<Call>, cancelled: set<nat>,
                                ls: seq<nat>, heard: seq<Call>, changed: seq<string>)
    requires IsAfterNormal(c', c, fs, readable) && IsAfterNormal(c'', c', fs, readable)
    requires IsAnnounced(c'', now, calls, cancelled, c', ls, heard, changed)
    ensures calls == heard && now == ls
  {
  }

}
