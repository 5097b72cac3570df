/** A nested directory tree, written as the map from each directory's path to its contents, and
    the two walks along one path that both tree-shaped databases perform: making the missing
    directories on the way down, and removing the emptied ones on the way up. */
module DirTree {
  import opened Paths
  import opened FileIndex

  datatype Node = Node(dirs: set<string>, files: map<string, FileInfo>) {
    predicate Empty() {
      dirs == {} && files == map[]
    }
  }

  const NO_ENTRIES := Node({}, map[])

  type Store = map<Path, Node>

  /** A path is a directory exactly when its parent lists it. */
  ghost predicate Linked(s: Store) {
    && [] in s
    && (forall p, n {:trigger Child(p, n)} :: Child(p, n) in s ==> p in s && n in s[p].dirs)
    && (forall p, n {:trigger n in s[p].dirs} :: p in s && n in s[p].dirs ==> Child(p, n) in s)
  }

  /** The files in the tree are exactly those of the flat map. */
  ghost predicate Stored(s: Store, m: Index) {
    && Named(m)
    && (forall p, n {:trigger Child(p, n)} :: Child(p, n) in m ==>
          p in s && n in s[p].files && s[p].files[n] == m[Child(p, n)].info)
    && (forall p, n {:trigger n in s[p].files} :: p in s && n in s[p].files ==> Child(p, n) in m)
  }

  /** No directory is empty, except the root and perhaps x. */
  ghost predicate PrunedExcept(s: Store, x: Path) {
    forall p :: p in s && p != [] && p != x ==> !s[p].Empty()
  }

  ghost predicate Implements(s: Store, m: Index) {
    Linked(s) && Stored(s, m) && PrunedExcept(s, [])
  }

  // ---------------------------------------------------------------------------------------
  // What the tree says about the flat map
  // ---------------------------------------------------------------------------------------

  lemma {:induction false} AncestorsStored(s: Store, p: Path, d: Path)
    requires Linked(s) && p in s && d <= p
    ensures d in s
    decreases |p|
  {
    if d != p {
      IsChild(p);
      AncestorsStored(s, Init(p), d);
    }
  }

  lemma {:induction false} FileBelow(s: Store, m: Index, d: Path, bound: nat) returns (q: Path)
    requires Implements(s, m)
    requires d in s && !s[d].Empty() && forall p :: p in s ==> |p| <= bound
    ensures q in m && d < q
    decreases bound - |d|
  {
    if s[d].files != map[] {
      var n :| n in s[d].files;
      q := Child(d, n);
    } else {
      var n :| n in s[d].dirs;
      assert |Child(d, n)| <= bound;
      q := FileBelow(s, m, Child(d, n), bound);
    }
  }

  /** The stored directories are exactly those that the flat map implies. */
  lemma StoredDirs(s: Store, m: Index, d: Path)
    requires Implements(s, m)
    ensures d in s <==> IsDir(m, d)
  {
    if d in s && d != [] {
      var bound := LengthBound(s.Keys);
      var q := FileBelow(s, m, d, bound);
    }
    if IsDir(m, d) && d != [] {
      var q :| q in m && d < q;
      IsChild(q);
      AncestorsStored(s, Init(q), d);
    }
  }

  lemma FileAt(s: Store, m: Index, ex: Path)
    requires Linked(s) && Stored(s, m) && ex != [] && Init(ex) in s
    ensures Last(ex) in s[Init(ex)].files <==> ex in m
    ensures ex in m ==> s[Init(ex)].files[Last(ex)] == m[ex].info
  {
    IsChild(ex);
  }

  /** A directory's node is its listing. */
  lemma NodeIsListing(s: Store, m: Index, d: Path)
    requires Implements(s, m) && d in s
    ensures s[d].files == FilesIn(m, d) && s[d].dirs == DirsIn(m, d)
  {
    forall n ensures n in s[d].files <==> n in FilesIn(m, d) {
      assert Child(d, n) in m <==> n in s[d].files;
    }
    forall n ensures n in s[d].dirs <==> n in DirsIn(m, d) {
      StoredDirs(s, m, Child(d, n));
    }
  }

  // ---------------------------------------------------------------------------------------
  // Changing one directory
  // ---------------------------------------------------------------------------------------

  function AddDir(s: Store, d: Path, n: string): Store
    requires d in s
  {
    s[d := s[d].(dirs := s[d].dirs + {n})][Child(d, n) := NO_ENTRIES]
  }

  function PutFile(s: Store, d: Path, n: string, fi: FileInfo): Store
    requires d in s
  {
    s[d := s[d].(files := s[d].files[n := fi])]
  }

  function DropFile(s: Store, d: Path, n: string): Store
    requires d in s
  {
    s[d := s[d].(files := s[d].files - {n})]
  }

  function DropDir(s: Store, d: Path, n: string): Store
    requires d in s
  {
    var rest := s - {Child(d, n)};
    rest[d := s[d].(dirs := s[d].dirs - {n})]
  }

  lemma AddDirKeeps(s: Store, m: Index, d: Path, n: string)
    requires Linked(s) && Stored(s, m) && d in s && PrunedExcept(s, d) && Child(d, n) !in s
    ensures var s' := AddDir(s, d, n);
      Linked(s') && Stored(s', m) && PrunedExcept(s', Child(d, n))
  {
  }

  lemma PutFileKeeps(s: Store, m: Index, d: Path, n: string, e: Entry)
    requires Linked(s) && Stored(s, m) && d in s && PrunedExcept(s, d)
    ensures Implements(PutFile(s, d, n, e.info), m[Child(d, n) := e])
  {
  }

  lemma DropFileLinked(s: Store, d: Path, n: string)
    requires Linked(s) && d in s
    ensures Linked(DropFile(s, d, n))
  {
  }

  lemma DropFileKeeps(s: Store, m: Index, d: Path, n: string)
    requires Implements(s, m) && d in s && n in s[d].files
    ensures var s' := DropFile(s, d, n);
      Linked(s') && Stored(s', m - {Child(d, n)}) && PrunedExcept(s', d)
  {
    DropFileLinked(s, d, n);
    IsChild(Child(d, n));
  }

  lemma DropDirLinked(s: Store, d: Path, n: string)
    requires Linked(s) && Child(d, n) in s && s[Child(d, n)].dirs == {}
    ensures Linked(DropDir(s, d, n))
  {
  }

  lemma DropDirKeeps(s: Store, m: Index, d: Path, n: string)
    requires Linked(s) && Stored(s, m) && PrunedExcept(s, Child(d, n))
    requires Child(d, n) in s && s[Child(d, n)].Empty()
    ensures var s' := DropDir(s, d, n);
      Linked(s') && Stored(s', m) && PrunedExcept(s', d)
  {
  }

  // ---------------------------------------------------------------------------------------
  // Walking a path
  // ---------------------------------------------------------------------------------------

  /** d and its missing ancestors are made. */
  function MakeDirs(s: Store, d: Path): (r: Store)
    requires [] in s
    ensures d in r && forall p :: p in s ==> p in r
    decreases |d|
  {
    if d in s then s
    else
      assert Child(Init(d), Last(d)) == d by { IsChild(d); }
      AddDir(MakeDirs(s, Init(d)), Init(d), Last(d))
  }

  /** d is removed if it is empty, then its parent if that is now empty, and so on. */
  function Prune(s: Store, d: Path): Store
    requires d in s
    decreases |d|
  {
    if d == [] || !s[d].Empty() || Init(d) !in s then s
    else Prune(DropDir(s, Init(d), Last(d)), Init(d))
  }

  /** MakeDirs makes the path's own prefixes and nothing else, and stores no file. */
  lemma {:induction false} MakeDirsKeeps(s: Store, m: Index, d: Path)
    requires Implements(s, m)
    ensures var r := MakeDirs(s, d);
      && Linked(r) && Stored(r, m) && PrunedExcept(r, d)
      && (forall p :: p in r <==> p in s || p <= d)
    decreases |d|
  {
    if d in s {
      forall p | p <= d ensures p in s { AncestorsStored(s, d, p); }
    } else {
      MakeDirsKeeps(s, m, Init(d));
      IsChild(d);
      AddDirKeeps(MakeDirs(s, Init(d)), m, Init(d), Last(d));
      forall p ensures p in MakeDirs(s, d) <==> p in s || p <= d {
        assert p <= d <==> p == d || p <= Init(d);
      }
    }
  }

  /** After a file is gone from d, pruning restores the invariant: no empty directory is left,
      at any depth, and no other directory is touched. */
  lemma {:induction false} PruneKeeps(s: Store, m: Index, d: Path)
    requires Linked(s) && Stored(s, m) && PrunedExcept(s, d) && d in s
    ensures Implements(Prune(s, d), m)
    ensures forall p :: p in Prune(s, d) ==> p in s
    decreases |d|
  {
    if d != [] && s[d].Empty() {
      IsChild(d);
      DropDirKeeps(s, m, Init(d), Last(d));
      PruneKeeps(DropDir(s, Init(d), Last(d)), m, Init(d));
    }
  }

  // ---------------------------------------------------------------------------------------
  // SetFile on the tree
  // ---------------------------------------------------------------------------------------

  /** One component further down: a directory that is there already, or is made, or is missing in
      the end. */
  lemma NextMade(s: Store, m: Index, ex: Path, i: nat)
    requires Implements(s, m) && i + 1 < |ex|
    ensures Linked(MakeDirs(s, ex[..i])) && ex[..i + 1] == Child(ex[..i], ex[i])
    ensures var made := MakeDirs(s, ex[..i]);
      MakeDirs(s, ex[..i + 1]) == if ex[..i + 1] in made then made else AddDir(made, ex[..i], ex[i])
    ensures ex[..i + 1] !in s ==> Init(ex) !in s
  {
    PrefixIsChild(ex, i);
    MakeDirsKeeps(s, m, ex[..i]);
    if Init(ex) in s {
      AncestorsStored(s, Init(ex), ex[..i + 1]);
    }
  }

  function PutAt(s: Store, ex: Path, fi: FileInfo): Store
    requires [] in s && ex != []
  {
    PutFile(MakeDirs(s, Init(ex)), Init(ex), Last(ex), fi)
  }

  function DeleteAt(s: Store, ex: Path): Store
    requires ex != [] && Init(ex) in s
  {
    Prune(DropFile(s, Init(ex), Last(ex)), Init(ex))
  }

  /** A put changes exactly that path of the flat map. */
  lemma PutRefines(s: Store, m: Index, ex: Path, fi: FileInfo, owner: string)
    requires Implements(s, m) && ex != []
    ensures Implements(PutAt(s, ex, fi), Apply(m, ex, Some(fi), owner))
  {
    MakeDirsKeeps(s, m, Init(ex));
    IsChild(ex);
    PutFileKeeps(MakeDirs(s, Init(ex)), m, Init(ex), Last(ex), Entry(fi, owner));
  }

  /** A delete of a stored file removes exactly that path of the flat map. */
  lemma DeleteRefines(s: Store, m: Index, ex: Path, owner: string)
    requires Implements(s, m) && ex in m
    ensures Init(ex) in s
    ensures Implements(DeleteAt(s, ex), Apply(m, ex, None, owner))
    ensures forall p :: p in DeleteAt(s, ex) ==> p in s
  {
    IsChild(ex);
    DropFileKeeps(s, m, Init(ex), Last(ex));
    PruneKeeps(DropFile(s, Init(ex), Last(ex)), m - {ex}, Init(ex));
  }

  /** Some other file lies below the directory of ex. */
  ghost predicate Crowded(m: Index, ex: Path)
    requires ex != []
  {
    exists q :: q in m && q != ex && Init(ex) < q
  }

  lemma LeftMeansCrowded(s: Store, m: Index, ex: Path)
    requires Implements(s, m) && ex in m && Init(ex) in s
    requires !DropFile(s, Init(ex), Last(ex))[Init(ex)].Empty()
    ensures Crowded(m, ex)
  {
    IsChild(ex);
    var d, left := Init(ex), DropFile(s, Init(ex), Last(ex))[Init(ex)];
    if left.files != map[] {
      var k :| k in left.files;
      assert Child(d, k) in m && Child(d, k) != ex;
    } else {
      var k :| k in s[d].dirs;
      var bound := LengthBound(s.Keys);
      var q := FileBelow(s, m, Child(d, k), bound);
      assert |q| > |ex|;
    }
  }

  lemma CrowdedMeansLeft(s: Store, m: Index, ex: Path)
    requires Implements(s, m) && ex in m && Init(ex) in s && Crowded(m, ex)
    ensures !DropFile(s, Init(ex), Last(ex))[Init(ex)].Empty()
  {
    var d, left := Init(ex), DropFile(s, Init(ex), Last(ex))[Init(ex)];
    var q :| q in m && q != ex && d < q;
    IsChild(ex);
    IsChild(q);
    if Init(q) == d {
      assert Last(q) in left.files;
    } else {
      NextStep(d, q);
      assert Child(d, q[|d|]) <= Init(q);
      AncestorsStored(s, Init(q), Child(d, q[|d|]));
      assert q[|d|] in left.dirs;
    }
  }

  /** After ex is gone its directory still has an entry exactly when another file lies below. */
  lemma CrowdedExactly(s: Store, m: Index, ex: Path)
    requires Implements(s, m) && ex in m
    ensures Init(ex) in s
    ensures !DropFile(s, Init(ex), Last(ex))[Init(ex)].Empty() <==> Crowded(m, ex)
  {
    IsChild(ex);
    if Crowded(m, ex) {
      CrowdedMeansLeft(s, m, ex);
    }
    if !DropFile(s, Init(ex), Last(ex))[Init(ex)].Empty() {
      LeftMeansCrowded(s, m, ex);
    }
  }
}
