/** database_sqlite.go: one table keyed by (directory, file, peer), and a cache of every
    directory's subdirectories that SetFile extends and deletions throw away. */
module Sqlite {
  import opened Paths
  import opened FileIndex

  datatype Key = Key(directory: string, file: string, peer: string)

  /** mtime is in whole seconds. */
  datatype Row = Row(size: int, mtime: int, hash: string)

  type Table = map<Key, Row>

  const NANOSECONDS := 1_000_000_000

  /** time.Time.Unix rounds down. */
  function RowOf(fi: FileInfo): Row {
    Row(fi.size, fi.mtime / NANOSECONDS, fi.hash)
  }

  /** time.Unix(mtime, 0). */
  function InfoOf(r: Row): FileInfo {
    FileInfo(r.size, r.hash, r.mtime * NANOSECONDS)
  }

  /** What a published info loses on its way through a row: only the fraction of a second. */
  lemma ThroughRow(fi: FileInfo)
    ensures RowOf(fi).size == fi.size && RowOf(fi).hash == fi.hash
    ensures RowOf(fi).mtime * 1_000_000_000 <= fi.mtime < RowOf(fi).mtime * 1_000_000_000 + 1_000_000_000
    ensures InfoOf(RowOf(fi)).size == fi.size && InfoOf(RowOf(fi)).hash == fi.hash
    ensures InfoOf(RowOf(fi)).mtime % 1_000_000_000 == 0
    ensures InfoOf(RowOf(fi)).mtime <= fi.mtime < InfoOf(RowOf(fi)).mtime + 1_000_000_000
  {
  }

  function KeyOf(ex: Path, peer: string): Key
    requires ex != []
  {
    Key(DirName(Init(ex)), Last(ex), peer)
  }

  /** The DELETE and the INSERT of SetFile. */
  function SetRow(t: Table, ex: Path, fi: Option<FileInfo>, peer: string): Table
    requires ex != []
  {
    if fi.Some? then t[KeyOf(ex, peer) := RowOf(fi.value)] else t - {KeyOf(ex, peer)}
  }

  /** DELETE FROM fs WHERE peer = ? */
  function DropPeer(t: Table, peer: string): Table {
    map k | k in t && k.peer != peer :: t[k]
  }

  /** A stored directory is a non-empty list of valid components. */
  predicate ValidDir(dir: string) {
    dir != "" && ValidNames(Split(dir, '/'))
  }

  ghost predicate ValidTable(t: Table) {
    forall k :: k in t ==> ValidDir(k.directory)
  }

  /** SELECT DISTINCT directory, as paths. */
  ghost function StoredPaths(t: Table): set<Path> {
    set k | k in t :: PathOf(k.directory)
  }

  lemma KeyOfPath(ex: Path, peer: string)
    requires ValidPath(ex)
    ensures ValidDir(KeyOf(ex, peer).directory) && PathOf(KeyOf(ex, peer).directory) == Init(ex)
  {
    PathOfDirName(Init(ex));
  }

  ghost function PathOfKey(k: Key): Path {
    Child(PathOf(k.directory), k.file)
  }

  lemma KeyAndPath(p: Path, peer: string)
    requires ValidPath(p)
    ensures PathOfKey(KeyOf(p, peer)) == p
  {
    KeyOfPath(p, peer);
    IsChild(p);
  }

  lemma PathAndKey(k: Key)
    ensures KeyOf(PathOfKey(k), k.peer) == k
  {
    DirNameOfPathOf(k.directory);
  }

  // ---------------------------------------------------------------------------------------
  // The directory cache
  // ---------------------------------------------------------------------------------------

  /** A nil slice and a missing key are one; every list stored is non-nil. */
  type DirCache = map<string, seq<string>>

  function Cached(c: DirCache, dn: string): seq<string> {
    if dn in c then c[dn] else []
  }

  /** n is a child of d: some directory of the set lies at or below d/n. */
  ghost predicate HasChild(dirs: set<Path>, d: Path, n: string) {
    exists e :: e in dirs && Child(d, n) <= e
  }

  ghost predicate Known(dirs: set<Path>, d: Path) {
    d == [] || exists e :: e in dirs && d <= e
  }

  /** The cache names exactly the children of every directory, and its keys are directories. */
  ghost predicate Agrees(c: DirCache, dirs: set<Path>) {
    && (forall d, n :: ValidNames(d) ==> (n in Cached(c, DirName(d)) <==> HasChild(dirs, d, n)))
    && (forall k :: k in c ==> ValidNames(PathOf(k)) && Known(dirs, PathOf(k)))
  }

  /** No directory's list names a child twice. */
  ghost predicate NoneTwice(c: DirCache) {
    forall k :: k in c ==> NoRepeats(c[k])
  }

  /** Every directory with a list has a child. */
  ghost predicate NoneEmpty(c: DirCache) {
    forall k :: k in c ==> c[k] != []
  }

  lemma ChildrenAreKnown(dirs: set<Path>, d: Path, n: string)
    ensures HasChild(dirs, d, n) <==> Known(dirs, Child(d, n))
  {
  }

  lemma KnownAbove(dirs: set<Path>, d: Path, e: Path)
    requires Known(dirs, e) && d <= e
    ensures Known(dirs, d)
  {
  }

  /** Adding e makes e and everything above it known, and nothing else. */
  lemma KnownAfter(dirs: set<Path>, e: Path, d: Path)
    ensures Known(dirs + {e}, d) <==> Known(dirs, d) || d <= e
  {
  }

  /** d.dirCache[dn] = append(d.dirCache[dn], f) */
  function Append(c: DirCache, dn: string, f: string): DirCache {
    c[dn := Cached(c, dn) + [f]]
  }

  lemma NamesDiffer(d: Path, e: Path)
    requires ValidNames(d) && ValidNames(e) && DirName(d) == DirName(e)
    ensures d == e
  {
    PathOfDirName(d);
    PathOfDirName(e);
  }

  lemma AppendKeepsNoneTwice(c: DirCache, dn: string, f: string)
    requires NoneTwice(c)
    ensures NoneTwice(Append(c, dn, f)) <==> f !in Cached(c, dn)
  {
    var list, longer := Cached(c, dn), Cached(c, dn) + [f];
    if f in list {
      var i :| 0 <= i < |list| && list[i] == f;
      assert longer[i] == longer[|list|];
      assert dn in Append(c, dn, f);
    } else {
      assert NoRepeats(longer);
    }
  }

  /** Between dirs and dirs + {e}: of e's own ancestry only the levels from s down are in yet. */
  ghost predicate Partly(c: DirCache, dirs: set<Path>, e: Path, s: int) {
    && (forall d, n :: ValidNames(d) ==>
          (n in Cached(c, DirName(d)) <==> HasChild(dirs, d, n) || (Child(d, n) <= e && |d| >= s)))
    && (forall k :: k in c ==> ValidNames(PathOf(k)) && Known(dirs + {e}, PathOf(k)))
  }

  lemma HasChildAfter(dirs: set<Path>, e: Path, d: Path, n: string)
    ensures HasChild(dirs + {e}, d, n) <==> HasChild(dirs, d, n) || Child(d, n) <= e
  {
  }

  lemma PartlyAtFirst(c: DirCache, dirs: set<Path>, e: Path)
    requires Agrees(c, dirs)
    ensures Partly(c, dirs, e, |e|)
  {
  }

  lemma AppendedAt(c: DirCache, at: Path, f: string, d: Path, n: string)
    requires ValidNames(at) && ValidNames(d)
    ensures n in Cached(Append(c, DirName(at), f), DirName(d)) <==> n in Cached(c, DirName(d)) || (d == at && n == f)
  {
    if DirName(d) == DirName(at) {
      NamesDiffer(d, at);
    }
  }

  lemma OnAncestry(e: Path, s: nat, d: Path, n: string)
    requires s < |e|
    ensures Child(d, n) <= e && |d| >= s <==> (Child(d, n) <= e && |d| >= s + 1) || (d == e[..s] && n == e[s])
  {
  }

  lemma PartlyUp(c: DirCache, dirs: set<Path>, e: Path, s: nat)
    requires Partly(c, dirs, e, s + 1) && s < |e| && ValidNames(e)
    ensures Partly(Append(c, DirName(e[..s]), e[s]), dirs, e, s)
  {
    var at, f := e[..s], e[s];
    var c' := Append(c, DirName(at), f);
    PathOfDirName(at);
    KnownAfter(dirs, e, at);
    forall d, n | ValidNames(d)
      ensures n in Cached(c', DirName(d)) <==> HasChild(dirs, d, n) || (Child(d, n) <= e && |d| >= s)
    {
      AppendedAt(c, at, f, d, n);
      OnAncestry(e, s, d, n);
    }
  }

  /** Meeting a known child means that the rest of the ancestry is in already. */
  lemma PartlyEnough(c: DirCache, dirs: set<Path>, e: Path, s: nat)
    requires Partly(c, dirs, e, s) && s <= |e| && ValidNames(e)
    requires s == 0 || HasChild(dirs, e[..s - 1], e[s - 1])
    ensures Agrees(c, dirs + {e})
  {
    forall d, n | ValidNames(d) ensures n in Cached(c, DirName(d)) <==> HasChild(dirs + {e}, d, n) {
      HasChildAfter(dirs, e, d, n);
      if Child(d, n) <= e && |d| < s {
        PrefixIsChild(e, s - 1);
        assert |Child(d, n)| == |d| + 1;
        assert Child(d, n) <= e[..s];
        KnownAbove(dirs, Child(d, n), Child(e[..s - 1], e[s - 1]));
      }
    }
  }

  /** Lines 231-242 for one directory: its ancestry is entered from the leaf up, until a child that
      is listed already. */
  method AddDirectory(c: DirCache, ghost dirs: set<Path>, ex: Path) returns (r: DirCache)
    requires Agrees(c, dirs) && NoneTwice(c) && ex != [] && ValidNames(ex)
    ensures Agrees(r, dirs + {ex}) && NoneTwice(r) && (NoneEmpty(c) ==> NoneEmpty(r))
    ensures forall k :: k in c ==> k in r
  {
    r := c;
    PartlyAtFirst(c, dirs, ex);
    var s := |ex| - 1;
    while s >= 0
      invariant -1 <= s < |ex| && Partly(r, dirs, ex, s + 1) && NoneTwice(r) && (NoneEmpty(c) ==> NoneEmpty(r))
      invariant forall k :: k in c ==> k in r
    {
      var dn, f := DirName(ex[..s]), ex[s];
      if f in Cached(r, dn) {
        assert |Child(ex[..s], f)| == s + 1;
        PartlyEnough(r, dirs, ex, s + 1);
        return;
      }
      PartlyUp(r, dirs, ex, s);
      AppendKeepsNoneTwice(r, dn, f);
      r := Append(r, dn, f);
      s := s - 1;
    }
    PartlyEnough(r, dirs, ex, 0);
  }

  /** Lines 218-245: the rebuild, the directories coming in any order. */
  method UpdateDirCache(t: Table) returns (c: DirCache)
    requires ValidTable(t)
    ensures Agrees(c, StoredPaths(t)) && NoneTwice(c) && NoneEmpty(c)
  {
    c := map[];
    var rows := set k | k in t :: k.directory;
    ghost var done: set<Path> := {};
    while rows != {}
      invariant rows <= set k | k in t :: k.directory
      invariant done == set k | k in t && k.directory !in rows :: PathOf(k.directory)
      invariant Agrees(c, done) && NoneTwice(c) && NoneEmpty(c)
      decreases rows
    {
      var dir :| dir in rows;
      var ex := Split(dir, '/');
      assert ValidDir(dir) && ex == PathOf(dir);
      c := AddDirectory(c, done, ex);
      rows := rows - {dir};
      done := done + {ex};
    }
    assert done == StoredPaths(t);
  }

  // ---------------------------------------------------------------------------------------
  // SetFile's update of the cache, as written
  // ---------------------------------------------------------------------------------------

  /** What lines 124-135 amount to: the directory enters its parent's list and gets a list of its
      own, and nothing above the parent is looked at. */
  function ExtendAsWritten(c: DirCache, dir: Path): DirCache
    requires dir != []
  {
    if DirName(dir) in c then c
    else Append(c, DirName(Init(dir)), Last(dir))[DirName(dir) := []]
  }

  /** Lines 124-135 as written. The append at line 132 makes the test at line 127 true in the next
      round, so the loop ends after one level. */
  method UpdateAsWritten(c: DirCache, ex: Path) returns (r: DirCache)
    requires ValidPath(ex)
    ensures r == ExtendAsWritten(c, Init(ex)) && DirName(Init(ex)) in r && (DirName(Init(ex)) in c ==> r == c)
  {
    r := c;
    var dn := DirName(Init(ex));
    if dn !in r {
      var s := |ex| - 1;
      while s > 0
        invariant 0 <= s <= |ex| - 1
        invariant r == if s == |ex| - 1 then c else Append(c, DirName(ex[..|ex| - 2]), ex[|ex| - 2])
        invariant s < |ex| - 2 ==> false
      {
        var dn := DirName(ex[..s]);
        if dn in r {
          break;
        }
        var pdn, f := DirName(ex[..s - 1]), ex[s - 1];
        r := Append(r, pdn, f);
        s := s - 1;
      }
      assert Init(Init(ex)) == ex[..|ex| - 2];
      r := r[dn := []];
    }
  }

  /** The repaired loop is the rebuild's: it goes on up until a child is listed already. */
  method UpdateRepaired(c: DirCache, ghost dirs: set<Path>, ex: Path) returns (r: DirCache)
    requires ValidPath(ex) && Agrees(c, dirs) && NoneTwice(c)
    ensures Agrees(r, dirs + {Init(ex)}) && NoneTwice(r)
    ensures DirName(Init(ex)) in r && (DirName(Init(ex)) in c ==> r == c)
  {
    r := c;
    var dn := DirName(Init(ex));
    PathOfDirName(Init(ex));
    if dn in r {
      AlreadyKnown(c, dirs, Init(ex));
    } else {
      r := AddDirectory(c, dirs, Init(ex));
      if dn !in r {
        KeyAdded(r, dirs + {Init(ex)}, Init(ex));
        r := r[dn := []];
      }
    }
  }

  /** A directory with a list of its own is known, so adding it changes nothing. */
  lemma AlreadyKnown(c: DirCache, dirs: set<Path>, e: Path)
    requires Agrees(c, dirs) && Known(dirs, e) && e != []
    ensures Agrees(c, dirs + {e})
  {
    forall d, n ensures HasChild(dirs + {e}, d, n) <==> HasChild(dirs, d, n) {
      HasChildAfter(dirs, e, d, n);
      if Child(d, n) <= e {
        KnownAbove(dirs, Child(d, n), e);
      }
    }
    forall k | k in c ensures Known(dirs + {e}, PathOf(k)) {
      KnownAfter(dirs, e, PathOf(k));
    }
  }

  lemma KeyAdded(c: DirCache, dirs: set<Path>, e: Path)
    requires Agrees(c, dirs) && ValidNames(e) && Known(dirs, e) && DirName(e) !in c
    ensures Agrees(c[DirName(e) := []], dirs)
  {
    PathOfDirName(e);
    assert forall d: Path {:trigger DirName(d)} :: Cached(c[DirName(e) := []], DirName(d)) == Cached(c, DirName(d));
  }

  /** As written, the cache goes on agreeing with the table exactly when the directory's parent was
      known before the put. */
  lemma AgreesAsWrittenIff(c: DirCache, dirs: set<Path>, e: Path)
    requires Agrees(c, dirs) && ValidNames(e) && e != []
    ensures Agrees(ExtendAsWritten(c, e), dirs + {e}) <==> Known(dirs, Init(e))
  {
    var p := Init(e);
    IsChild(e);
    PathOfDirName(e);
    if DirName(e) in c {
      KnownAbove(dirs, p, e);
      AlreadyKnown(c, dirs, e);
    } else {
      var c' := Append(c, DirName(p), Last(e));
      if Known(dirs, p) {
        PartlyAtFirst(c, dirs, e);
        PartlyUp(c, dirs, e, |e| - 1);
        if p != [] {
          IsChild(p);
        }
        PartlyEnough(c', dirs, e, |e| - 1);
        KnownAfter(dirs, e, e);
        if DirName(p) == DirName(e) {
          NamesDiffer(p, e);
        }
        KeyAdded(c', dirs + {e}, e);
      } else {
        IsChild(p);
        var g, n := Init(p), Last(p);
        HasChildAfter(dirs, e, g, n);
        AppendedAt(c, p, Last(e), g, n);
        assert |g| != |e| && |g| != |p|;
        if DirName(g) == DirName(e) {
          NamesDiffer(g, e);
        }
        assert n !in Cached(ExtendAsWritten(c, e), DirName(g));
      }
    }
  }

  /** As written, a child is listed twice exactly when the directory was known without having a
      list of its own. */
  lemma NoneTwiceAsWrittenIff(c: DirCache, dirs: set<Path>, e: Path)
    requires Agrees(c, dirs) && NoneTwice(c) && ValidNames(e) && e != []
    ensures NoneTwice(ExtendAsWritten(c, e)) <==> DirName(e) in c || !Known(dirs, e)
  {
    IsChild(e);
    if DirName(e) !in c {
      ChildrenAreKnown(dirs, Init(e), Last(e));
      AppendKeepsNoneTwice(c, DirName(Init(e)), Last(e));
      var c' := Append(c, DirName(Init(e)), Last(e));
      if DirName(Init(e)) == DirName(e) {
        NamesDiffer(Init(e), e);
      }
      if !NoneTwice(c') {
        assert exists k :: k in c' && !NoRepeats(c'[k]);
        var k :| k in c' && !NoRepeats(c'[k]);
        assert k == DirName(Init(e));
        assert c'[DirName(e) := []][k] == c'[k];
      }
    }
  }

  /** After a rebuild, whose lists are not empty, that is exactly when the directory is stored and has
      no subdirectories. */
  lemma TwiceAfterRebuildIff(c: DirCache, dirs: set<Path>, e: Path)
    requires Agrees(c, dirs) && NoneTwice(c) && NoneEmpty(c) && ValidNames(e) && e != []
    ensures NoneTwice(ExtendAsWritten(c, e)) <==> !Known(dirs, e) || exists n :: HasChild(dirs, e, n)
  {
    NoneTwiceAsWrittenIff(c, dirs, e);
    if DirName(e) in c {
      assert c[DirName(e)][0] in Cached(c, DirName(e));
    }
  }

  /** The first put after the root was listed while the table was empty. */
  lemma AsWrittenLosesAnAncestor()
    ensures Agrees(map[], {})
    ensures !Agrees(ExtendAsWritten(map[], ["user", "music"]), {["user", "music"]})
  {
    var e := ["user", "music"];
    assert ValidName(e[0]) && ValidName(e[1]);
    assert Init(e) == ["user"];
    assert !Known({}, ["user"]);
    assert {} + {e} == {e};
    AgreesAsWrittenIff(map[], {}, e);
  }

  // ---------------------------------------------------------------------------------------
  // The table
  // ---------------------------------------------------------------------------------------

  lemma StoredAfterPut(t: Table, ex: Path, fi: FileInfo, peer: string)
    requires ValidTable(t) && ValidPath(ex)
    ensures ValidTable(SetRow(t, ex, Some(fi), peer))
    ensures StoredPaths(SetRow(t, ex, Some(fi), peer)) == StoredPaths(t) + {Init(ex)}
  {
    KeyOfPath(ex, peer);
    var t' := SetRow(t, ex, Some(fi), peer);
    assert KeyOf(ex, peer) in t';
    forall k | k in t ensures PathOf(k.directory) in StoredPaths(t') {
      assert k in t';
    }
  }

  /** SELECT DISTINCT peer FROM fs WHERE hash = ? */
  ghost function PeersWith(t: Table, hash: string): set<string> {
    set k | k in t && t[k].hash == hash :: k.peer
  }

  lemma DroppedPeerOwnsNothing(t: Table, peer: string, h: string)
    ensures PeersWith(DropPeer(t, peer), h) == PeersWith(t, h) - {peer}
  {
    forall o | o in PeersWith(t, h) && o != peer ensures o in PeersWith(DropPeer(t, peer), h) {
      var k :| k in t && t[k].hash == h && k.peer == o;
      assert k in DropPeer(t, peer);
    }
  }

  /** SELECT ... WHERE directory = ? GROUP BY file: for every file name, the row of some peer. */
  ghost predicate IsGrouped(files: map<string, FileInfo>, t: Table, dir: string) {
    && (forall k :: k in t && k.directory == dir ==> k.file in files)
    && (forall f :: f in files ==>
          exists k :: k in t && k.directory == dir && k.file == f && files[f] == InfoOf(t[k]))
  }

  /** The listed info has the size, the hash and the whole seconds of some peer's row. */
  ghost predicate IsRowsInfo(info: FileInfo, t: Table, dir: string, f: string) {
    exists peer :: Key(dir, f, peer) in t && IsRowInfo(info, t[Key(dir, f, peer)])
  }

  ghost predicate IsRowInfo(info: FileInfo, r: Row) {
    info.size == r.size && info.hash == r.hash && info.mtime == r.mtime * 1_000_000_000
  }

  /** The table has one row for the path, and it holds this info. */
  ghost predicate IsOnlyRow(t: Table, ex: Path, owner: string, fi: FileInfo)
    requires ex != []
  {
    && KeyOf(ex, owner) in t
    && t[KeyOf(ex, owner)].size == fi.size && t[KeyOf(ex, owner)].hash == fi.hash
    && t[KeyOf(ex, owner)].mtime * 1_000_000_000 <= fi.mtime < t[KeyOf(ex, owner)].mtime * 1_000_000_000 + 1_000_000_000
    && forall peer :: Key(DirName(Init(ex)), Last(ex), peer) in t ==> peer == owner
  }

  lemma RowsInfos(files: map<string, FileInfo>, t: Table, dir: string)
    requires IsGrouped(files, t, dir)
    ensures forall f :: f in files ==> IsRowsInfo(files[f], t, dir, f)
  {
    forall f | f in files ensures IsRowsInfo(files[f], t, dir, f) {
      var k :| k in t && k.directory == dir && k.file == f && files[f] == InfoOf(t[k]);
      assert k == Key(dir, f, k.peer);
    }
  }

  lemma OnlyRowIsListed(files: map<string, FileInfo>, t: Table, ex: Path, owner: string, fi: FileInfo)
    requires ex != [] && IsOnlyRow(t, ex, owner, fi) && IsGrouped(files, t, DirName(Init(ex)))
    ensures Last(ex) in files && files[Last(ex)].size == fi.size && files[Last(ex)].hash == fi.hash
    ensures files[Last(ex)].mtime % 1_000_000_000 == 0
    ensures files[Last(ex)].mtime <= fi.mtime < files[Last(ex)].mtime + 1_000_000_000
  {
    assert KeyOf(ex, owner).file in files;
    RowsInfos(files, t, DirName(Init(ex)));
    var peer :| Key(DirName(Init(ex)), Last(ex), peer) in t
      && IsRowInfo(files[Last(ex)], t[Key(DirName(Init(ex)), Last(ex), peer)]);
    assert peer == owner;
  }

  method SelectDir(t: Table, dir: string) returns (files: map<string, FileInfo>)
    ensures IsGrouped(files, t, dir)
  {
    files := map[];
    var rows := set k | k in t && k.directory == dir;
    while rows != {}
      invariant rows <= set k | k in t && k.directory == dir
      invariant forall k :: k in t && k.directory == dir ==> k in rows || k.file in files
      invariant forall f :: f in files ==>
        exists k :: k in t && k.directory == dir && k.file == f && files[f] == InfoOf(t[k])
      decreases rows
    {
      var k :| k in rows;
      rows := rows - {k};
      files := files[k.file := InfoOf(t[k])];
    }
  }

  class Database {
    var fs: Table
    /** None is the nil map. */
    var dirCache: Option<DirCache>

    constructor ()
      ensures Valid() && fs == map[] && dirCache.None?
    {
      fs, dirCache := map[], None;
    }

    ghost predicate Valid()
      reads this
    {
      ValidTable(fs)
    }

    /** The cache, if there is one, names the same children as a rebuild would. */
    ghost predicate CacheAgrees()
      reads this
    {
      dirCache.Some? ==> Agrees(dirCache.value, StoredPaths(fs))
    }

    ghost predicate CacheOnce()
      reads this
    {
      dirCache.Some? ==> NoneTwice(dirCache.value)
    }

    /** Lines 107-141. `repaired` chooses the loop that extends the cache. */
    method SetFile(ex: Path, fi: Option<FileInfo>, owner: string, repaired: bool)
      requires Valid() && ValidPath(ex)
      requires repaired ==> CacheAgrees() && CacheOnce()
      modifies this
      ensures Valid() && fs == SetRow(old(fs), ex, fi, owner)
      ensures fi.Some? ==> var k := KeyOf(ex, owner);
        && k in fs && fs[k].size == fi.value.size && fs[k].hash == fi.value.hash
        && fs[k].mtime * 1_000_000_000 <= fi.value.mtime < fs[k].mtime * 1_000_000_000 + 1_000_000_000
      ensures dirCache.Some? <==> fi.Some? && old(dirCache).Some?
      ensures dirCache.Some? ==> DirName(Init(ex)) in dirCache.value
      ensures dirCache.Some? && DirName(Init(ex)) in old(dirCache).value ==> dirCache == old(dirCache)
      ensures repaired ==> CacheAgrees() && CacheOnce()
      ensures !repaired && dirCache.Some? && old(CacheAgrees()) ==>
        (CacheAgrees() <==> Known(StoredPaths(old(fs)), Init(Init(ex))))
      ensures !repaired && dirCache.Some? && old(CacheAgrees() && CacheOnce()) ==>
        (CacheOnce() <==> DirName(Init(ex)) in old(dirCache).value || !Known(StoredPaths(old(fs)), Init(ex)))
    {
      if fi.Some? {
        StoredAfterPut(fs, ex, fi.value, owner);
        if dirCache.Some? {
          var c := dirCache.value;
          if repaired {
            c := UpdateRepaired(c, StoredPaths(fs), ex);
          } else {
            c := UpdateAsWritten(c, ex);
            if Agrees(dirCache.value, StoredPaths(fs)) {
              AgreesAsWrittenIff(dirCache.value, StoredPaths(fs), Init(ex));
              if NoneTwice(dirCache.value) {
                NoneTwiceAsWrittenIff(dirCache.value, StoredPaths(fs), Init(ex));
              }
            }
          }
          dirCache := Some(c);
        }
      } else {
        dirCache := None;
      }
      fs := SetRow(fs, ex, fi, owner);
      if fi.Some? {
        ThroughRow(fi.value);
      }
    }

    /** Lines 143-149: exactly the peer's rows go, so that it owns nothing and the others what they did. */
    method PeerDisconnected(owner: string)
      requires Valid()
      modifies this
      ensures Valid() && fs == DropPeer(old(fs), owner) && dirCache.None?
      ensures forall k :: k in fs <==> k in old(fs) && k.peer != owner
      ensures forall k :: k in fs ==> fs[k] == old(fs)[k]
      ensures forall h :: PeersWith(fs, h) == PeersWith(old(fs), h) - {owner}
      ensures CacheAgrees() && CacheOnce()
    {
      fs := DropPeer(fs, owner);
      dirCache := None;
      forall h ensures PeersWith(fs, h) == PeersWith(old(fs), h) - {owner} {
        DroppedPeerOwnsNothing(old(fs), owner, h);
      }
    }

    /** Lines 151-173. */
    method GetOwners(hash: string) returns (r: seq<string>)
      ensures Lists(r, PeersWith(fs, hash))
    {
      r := ListKeys(set k | k in fs && fs[k].hash == hash :: k.peer);
    }

    /** Lines 175-210: an unknown directory gives an empty listing, not an error. The subdirectories are
        what the cache lists, whatever that is; without a cache there is a rebuild first. */
    method GetDir(dir: string) returns (r: DirReply)
      requires Valid()
      modifies this`dirCache
      ensures r.Listing? && IsGrouped(r.files, fs, dir)
      ensures forall f :: f in r.files ==> IsRowsInfo(r.files[f], fs, dir, f)
      ensures forall ex: Path, owner, fi :: ex != [] && DirName(Init(ex)) == dir && IsOnlyRow(fs, ex, owner, fi) ==>
        && Last(ex) in r.files && r.files[Last(ex)].size == fi.size && r.files[Last(ex)].hash == fi.hash
        && r.files[Last(ex)].mtime % 1_000_000_000 == 0
        && r.files[Last(ex)].mtime <= fi.mtime < r.files[Last(ex)].mtime + 1_000_000_000
      ensures dirCache.Some? && r.dirs == Cached(dirCache.value, dir)
      ensures old(dirCache).Some? ==> dirCache == old(dirCache)
      ensures old(dirCache).None? ==> CacheAgrees() && CacheOnce() && NoneEmpty(dirCache.value)
      ensures CacheAgrees() && ValidNames(PathOf(dir)) ==>
        forall n :: n in r.dirs <==> HasChild(StoredPaths(fs), PathOf(dir), n)
      ensures CacheOnce() ==> NoRepeats(r.dirs)
    {
      if dirCache.None? {
        var c := UpdateDirCache(fs);
        dirCache := Some(c);
      }
      var dirs := Cached(dirCache.value, dir);
      DirNameOfPathOf(dir);
      var files := SelectDir(fs, dir);
      r := Listing(files, dirs);
      RowsInfos(files, fs, dir);
      forall ex: Path, owner, fi | ex != [] && DirName(Init(ex)) == dir && IsOnlyRow(fs, ex, owner, fi)
        ensures
          && Last(ex) in files && files[Last(ex)].size == fi.size && files[Last(ex)].hash == fi.hash
          && files[Last(ex)].mtime % 1_000_000_000 == 0
          && files[Last(ex)].mtime <= fi.mtime < files[Last(ex)].mtime + 1_000_000_000
      {
        OnlyRowIsListed(files, fs, ex, owner, fi);
      }
    }
  }

  /** As written, a file put into a directory without subdirectories, a listing, and the same put again
      list the directory twice in its parent. */
  method PutTwiceListsTwice(ex: Path, fi: FileInfo, owner: string) returns (db: Database, r: DirReply)
    requires ValidPath(ex)
    ensures fresh(db) && db.Valid() && db.fs.Keys == {KeyOf(ex, owner)} && !db.CacheOnce()
  {
    db := new Database();
    db.SetFile(ex, Some(fi), owner, false);
    OnlyStored(db.fs, ex, owner);
    r := db.GetDir("");
    TwiceAfterRebuildIff(db.dirCache.value, StoredPaths(db.fs), Init(ex));
    ghost var c := db.dirCache.value;
    assert DirName(Init(ex)) !in c by {
      NoneTwiceAsWrittenIff(c, StoredPaths(db.fs), Init(ex));
    }
    db.SetFile(ex, Some(fi), owner, false);
  }

  lemma OnlyStored(t: Table, ex: Path, owner: string)
    requires ValidPath(ex) && t.Keys == {KeyOf(ex, owner)}
    ensures StoredPaths(t) == {Init(ex)} && Known(StoredPaths(t), Init(ex))
    ensures forall n :: !HasChild(StoredPaths(t), Init(ex), n)
  {
    KeyOfPath(ex, owner);
    assert KeyOf(ex, owner) in t;
    assert Init(ex) in StoredPaths(t);
  }
}
