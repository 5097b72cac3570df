/** The three databases side by side: after the same changes they list every directory alike. */
module Backends {
  import opened Paths
  import opened FileIndex
  import InMemory
  import Bolt
  import Sqlite

  /** One SetFile. */
  datatype Change = Change(path: Path, info: Option<FileInfo>, owner: string)

  /** What the changes must respect: the path passed the master's checks, one peer publishes it, it
      is not a directory and does not lead through a file, and only published paths are deleted. */
  ghost predicate Admissible(m: Index, c: Change) {
    && ValidPath(c.path) && Bolt.ValidIdent(c.owner) && OneOwner(m, c.path, c.owner)
    && match c.info
       case Some(i) => i.hash != "" && !Bolt.Clashes(m, c.path)
       case None => c.path in m
  }

  ghost function Outcome(m: Index, changes: seq<Change>): Index {
    if changes == [] then m
    else
      var before := Outcome(m, changes[..|changes| - 1]);
      var c := changes[|changes| - 1];
      Apply(before, c.path, c.info, c.owner)
  }

  ghost predicate AllAdmissible(m: Index, changes: seq<Change>) {
    forall i {:trigger changes[i]} :: 0 <= i < |changes| ==> Admissible(Outcome(m, changes[..i]), changes[i])
  }

  // ---------------------------------------------------------------------------------------
  // The table and the flat map
  // ---------------------------------------------------------------------------------------

  ghost predicate HasRow(t: Sqlite.Table, m: Index, p: Path)
    requires p in m
  {
    && ValidPath(p)
    && var k := Sqlite.KeyOf(p, m[p].owner);
      k in t && t[k] == Sqlite.RowOf(m[p].info)
  }

  ghost predicate HasPath(t: Sqlite.Table, m: Index, k: Sqlite.Key) {
    Sqlite.PathOfKey(k) in m && m[Sqlite.PathOfKey(k)].owner == k.peer && Sqlite.ValidDir(k.directory)
  }

  /** The table has one row per file of the flat map, of the peer that published it. */
  ghost predicate IsTable(t: Sqlite.Table, m: Index) {
    && (forall p {:trigger HasRow(t, m, p)} :: p in m ==> HasRow(t, m, p))
    && (forall k {:trigger HasPath(t, m, k)} :: k in t ==> HasPath(t, m, k))
  }

  lemma TableFollows(t: Sqlite.Table, m: Index, ex: Path, fi: Option<FileInfo>, owner: string)
    requires IsTable(t, m) && ValidPath(ex) && OneOwner(m, ex, owner)
    ensures IsTable(Sqlite.SetRow(t, ex, fi, owner), Apply(m, ex, fi, owner))
  {
    var t', m' := Sqlite.SetRow(t, ex, fi, owner), Apply(m, ex, fi, owner);
    Sqlite.KeyAndPath(ex, owner);
    Sqlite.KeyOfPath(ex, owner);
    forall p | p in m' ensures HasRow(t', m', p) {
      if p != ex {
        assert HasRow(t, m, p);
        Sqlite.KeyAndPath(p, m[p].owner);
      }
    }
    forall k | k in t' ensures HasPath(t', m', k) {
      if k != Sqlite.KeyOf(ex, owner) {
        assert HasPath(t, m, k);
        Sqlite.PathAndKey(k);
      }
    }
  }

  /** The info as SQLite gives it back. */
  function WholeSeconds(fi: FileInfo): FileInfo {
    Sqlite.InfoOf(Sqlite.RowOf(fi))
  }

  lemma GroupedListing(t: Sqlite.Table, m: Index, d: Path, files: map<string, FileInfo>)
    requires IsTable(t, m) && ValidNames(d) && Sqlite.IsGrouped(files, t, DirName(d))
    ensures files.Keys == FilesIn(m, d).Keys
    ensures forall n :: n in files ==> files[n] == WholeSeconds(FilesIn(m, d)[n])
  {
    PathOfDirName(d);
    forall n | Child(d, n) in m ensures n in files {
      assert HasRow(t, m, Child(d, n));
    }
    forall n | n in files ensures Child(d, n) in m && files[n] == WholeSeconds(m[Child(d, n)].info) {
      var k :| k in t && k.directory == DirName(d) && k.file == n && files[n] == Sqlite.InfoOf(t[k]);
      assert HasPath(t, m, k);
      Sqlite.PathAndKey(k);
      assert HasRow(t, m, Child(d, n));
    }
  }

  lemma ChildrenAreDirs(t: Sqlite.Table, m: Index, d: Path, n: string)
    requires IsTable(t, m)
    ensures Sqlite.HasChild(Sqlite.StoredPaths(t), d, n) <==> IsDir(m, Child(d, n))
  {
    if IsDir(m, Child(d, n)) {
      var p :| p in m && Child(d, n) < p;
      assert HasRow(t, m, p);
      Sqlite.KeyOfPath(p, m[p].owner);
      assert Child(d, n) <= Init(p);
      assert Init(p) in Sqlite.StoredPaths(t);
    }
    if Sqlite.HasChild(Sqlite.StoredPaths(t), d, n) {
      var e :| e in Sqlite.StoredPaths(t) && Child(d, n) <= e;
      var k :| k in t && PathOf(k.directory) == e;
      assert HasPath(t, m, k);
      assert Child(d, n) < Sqlite.PathOfKey(k) by {
        assert Init(Sqlite.PathOfKey(k)) == e;
        assert |Sqlite.PathOfKey(k)| == |e| + 1;
      }
    }
  }

  // ---------------------------------------------------------------------------------------
  // The three databases after the same changes
  // ---------------------------------------------------------------------------------------

  lemma EndsCommitted(m: Index, c: Change)
    requires Admissible(m, c) && Bolt.NoClash(m)
    ensures Bolt.Ending(m, c.path, c.info) == Bolt.Committed
  {
  }

  lemma OneMore(m: Index, changes: seq<Change>, i: nat)
    requires AllAdmissible(m, changes) && i < |changes|
    ensures var before, c := Outcome(m, changes[..i]), changes[i];
      Admissible(before, c) && Outcome(m, changes[..i + 1]) == Apply(before, c.path, c.info, c.owner)
  {
    assert changes[..i + 1][..i] == changes[..i];
  }

  /** The in-memory database, with the repaired pruning loop. */
  method RunInMemory(changes: seq<Change>) returns (db: InMemory.Database)
    requires AllAdmissible(map[], changes)
    ensures db.Valid() && db.index == Outcome(map[], changes)
  {
    db := new InMemory.Database();
    for i := 0 to |changes|
      invariant db.Valid() && db.index == Outcome(map[], changes[..i])
      invariant fresh(db) && forall p :: p in db.tree ==> fresh(db.tree[p])
    {
      OneMore(map[], changes, i);
      var panicked := db.SetFileLocked(changes[i].path, changes[i].info, changes[i].owner, true);
    }
    assert changes[..|changes|] == changes;
  }

  method ListInMemory(changes: seq<Change>, d: Path) returns (r: DirReply)
    requires AllAdmissible(map[], changes) && ValidNames(d) && IsDir(Outcome(map[], changes), d)
    ensures IsListing(r, Outcome(map[], changes), d)
  {
    var db := RunInMemory(changes);
    PathOfDirName(d);
    r := db.GetDir(DirName(d));
  }

  method ListBolt(changes: seq<Change>, d: Path) returns (r: DirReply)
    requires AllAdmissible(map[], changes) && ValidNames(d) && IsDir(Outcome(map[], changes), d)
    ensures IsListing(r, Outcome(map[], changes), d)
  {
    var db := new Bolt.Database();
    for i := 0 to |changes|
      invariant db.Valid() && db.index == Outcome(map[], changes[..i]) && fresh(db)
    {
      OneMore(map[], changes, i);
      EndsCommitted(db.index, changes[i]);
      var out := db.SetFile(changes[i].path, changes[i].info, changes[i].owner);
    }
    assert changes[..|changes|] == changes;
    PathOfDirName(d);
    r := db.GetDir(DirName(d));
  }

  /** The same listing up to whole seconds. */
  ghost predicate IsListingInSeconds(r: DirReply, m: Index, d: Path) {
    && r.Listing? && Lists(r.dirs, DirsIn(m, d)) && r.files.Keys == FilesIn(m, d).Keys
    && forall n :: n in r.files ==> r.files[n] == WholeSeconds(FilesIn(m, d)[n])
  }

  /** Sizes and hashes come back as published, and times without their fraction of a second. */
  lemma OnlyTheFractionIsLost(r: DirReply, m: Index, d: Path)
    requires IsListingInSeconds(r, m, d)
    ensures forall n :: n in r.files ==> var published := m[Child(d, n)].info;
      && r.files[n].size == published.size && r.files[n].hash == published.hash
      && r.files[n].mtime % 1_000_000_000 == 0
      && r.files[n].mtime <= published.mtime < r.files[n].mtime + 1_000_000_000
  {
    forall n | n in r.files ensures var published := m[Child(d, n)].info;
      && r.files[n].size == published.size && r.files[n].hash == published.hash
      && r.files[n].mtime % 1_000_000_000 == 0
      && r.files[n].mtime <= published.mtime < r.files[n].mtime + 1_000_000_000
    {
      Sqlite.ThroughRow(m[Child(d, n)].info);
    }
  }

  /** One change, after a listing that leaves the cache there to be extended. */
  method ListAndChange(db: Sqlite.Database, ghost m: Index, change: Change, dir: string)
    requires db.Valid() && db.CacheAgrees() && db.CacheOnce() && IsTable(db.fs, m) && Admissible(m, change)
    modifies db
    ensures db.Valid() && db.CacheAgrees() && db.CacheOnce()
    ensures IsTable(db.fs, Apply(m, change.path, change.info, change.owner))
  {
    TableFollows(db.fs, m, change.path, change.info, change.owner);
    var before := db.GetDir(dir);
    db.SetFile(change.path, change.info, change.owner, true);
  }

  lemma SameListing(r: DirReply, t: Sqlite.Table, m: Index, d: Path)
    requires IsTable(t, m) && ValidNames(d)
    requires r.Listing? && Sqlite.IsGrouped(r.files, t, DirName(d)) && NoRepeats(r.dirs)
    requires forall n :: n in r.dirs <==> Sqlite.HasChild(Sqlite.StoredPaths(t), d, n)
    ensures IsListingInSeconds(r, m, d)
  {
    GroupedListing(t, m, d, r.files);
    forall n ensures n in r.dirs <==> n in DirsIn(m, d) {
      ChildrenAreDirs(t, m, d, n);
    }
  }

  method RunSqlite(changes: seq<Change>, dir: string) returns (db: Sqlite.Database)
    requires AllAdmissible(map[], changes)
    ensures fresh(db) && db.Valid() && db.CacheAgrees() && db.CacheOnce() && IsTable(db.fs, Outcome(map[], changes))
  {
    db := new Sqlite.Database();
    for i := 0 to |changes|
      invariant db.Valid() && db.CacheAgrees() && db.CacheOnce() && fresh(db)
      invariant IsTable(db.fs, Outcome(map[], changes[..i]))
    {
      OneMore(map[], changes, i);
      ListAndChange(db, Outcome(map[], changes[..i]), changes[i], dir);
    }
    assert changes[..|changes|] == changes;
  }

  /** The SQLite database, with the repaired step of the directory cache. The directory is asked for
      before each change, so that the cache is there to be extended. */
  method ListSqlite(changes: seq<Change>, d: Path) returns (r: DirReply)
    requires AllAdmissible(map[], changes) && ValidNames(d)
    ensures IsListingInSeconds(r, Outcome(map[], changes), d)
    ensures forall n :: n in r.files ==> var published := Outcome(map[], changes)[Child(d, n)].info;
      && r.files[n].size == published.size && r.files[n].hash == published.hash
      && r.files[n].mtime % 1_000_000_000 == 0
      && r.files[n].mtime <= published.mtime < r.files[n].mtime + 1_000_000_000
  {
    var db := RunSqlite(changes, DirName(d));
    PathOfDirName(d);
    r := db.GetDir(DirName(d));
    SameListing(r, db.fs, Outcome(map[], changes), d);
    OnlyTheFractionIsLost(r, Outcome(map[], changes), d);
  }

  /** The repaired in-memory database, the Bolt database and the repaired SQLite database list every
      directory alike after any admissible changes; SQLite's modification times are whole seconds. */
  method ListEverywhere(changes: seq<Change>, d: Path) returns (a: DirReply, b: DirReply, c: DirReply)
    requires AllAdmissible(map[], changes) && ValidNames(d) && IsDir(Outcome(map[], changes), d)
    ensures a.Listing? && b.Listing? && c.Listing?
    ensures a.files == b.files && a.files.Keys == c.files.Keys
    ensures forall n :: n in c.files ==>
      && c.files[n].size == a.files[n].size && c.files[n].hash == a.files[n].hash
      && c.files[n].mtime % 1_000_000_000 == 0
      && c.files[n].mtime <= a.files[n].mtime < c.files[n].mtime + 1_000_000_000
    ensures forall n :: (n in a.dirs <==> n in b.dirs) && (n in b.dirs <==> n in c.dirs)
    ensures NoRepeats(a.dirs) && NoRepeats(b.dirs) && NoRepeats(c.dirs)
  {
    a := ListInMemory(changes, d);
    b := ListBolt(changes, d);
    c := ListSqlite(changes, d);
  }
}
