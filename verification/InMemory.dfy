/** database_inmem.go: a tree of mutable directories with child counts, and an index
    hash -> owner -> number of files. */
module InMemory {
  import opened Paths
  import opened FileIndex
  import opened DirTree

  // ---------------------------------------------------------------------------------------
  // The owner counts (database_inmem.go:60-65 and 81-88)
  // ---------------------------------------------------------------------------------------

  type OwnerCounts = map<string, map<string, int>>

  function RefCount(owners: OwnerCounts, h: string, o: string): int {
    if h in owners && o in owners[h] then owners[h][o] else 0
  }

  /** owners[h][o]--, dropping the key when the count reaches zero. */
  function Release(owners: OwnerCounts, h: string, o: string): OwnerCounts
    requires h in owners
  {
    var n := RefCount(owners, h, o) - 1;
    owners[h := if n == 0 then owners[h] - {o} else owners[h][o := n]]
  }

  /** owners[h][o]++, making the inner map when it is missing. */
  function Acquire(owners: OwnerCounts, h: string, o: string): OwnerCounts {
    var inner := if h in owners then owners[h] else map[];
    owners[h := inner[o := RefCount(owners, h, o) + 1]]
  }

  /** Every stored count is positive and is the number of live files with that hash and owner. */
  ghost predicate CountsExact(owners: OwnerCounts, m: Index) {
    && (forall h, o :: h in owners && o in owners[h] ==> owners[h][o] > 0)
    && (forall h, o :: RefCount(owners, h, o) == |Holding(m, h, o)|)
  }

  /** What setFileLocked does to the counts when it finds `prev` at the path. */
  function CountsStep(owners: OwnerCounts, prev: Option<Entry>, fi: Option<FileInfo>, owner: string): OwnerCounts
    requires prev.Some? ==> prev.value.info.hash in owners
  {
    var released := if prev.Some? then Release(owners, prev.value.info.hash, owner) else owners;
    if fi.Some? then Acquire(released, fi.value.hash, owner) else released
  }

  function Lookup(m: Index, ex: Path): Option<Entry> {
    if ex in m then Some(m[ex]) else None
  }

  /** Every live file's hash has an inner map, so that the decrement never meets a nil map. */
  ghost predicate HashesKnown(owners: OwnerCounts, m: Index) {
    forall p :: p in m ==> m[p].info.hash in owners
  }

  lemma HashesStayKnown(owners: OwnerCounts, m: Index, ex: Path, fi: Option<FileInfo>, owner: string)
    requires HashesKnown(owners, m)
    ensures HashesKnown(CountsStep(owners, Lookup(m, ex), fi, owner), Apply(m, ex, fi, owner))
  {
  }

  /** The counts are exact, and every file with one of the hashes is the peer's. */
  ghost predicate Attributed(owners: OwnerCounts, m: Index, victims: set<string>, owner: string) {
    CountsExact(owners, m) && forall p :: p in m && m[p].info.hash in victims ==> m[p].owner == owner
  }

  /** The hashes whose inner map names the peer and nobody else (lines 96-99). */
  function VictimsOf(owners: OwnerCounts, owner: string): set<string> {
    set h | h in owners && owners[h].Keys == {owner}
  }

  lemma HashIsIndexed(owners: OwnerCounts, m: Index, ex: Path)
    requires CountsExact(owners, m) && ex in m
    ensures m[ex].info.hash in owners && m[ex].owner in owners[m[ex].info.hash]
  {
    var h, o := m[ex].info.hash, m[ex].owner;
    assert ex in Holding(m, h, o);
    assert RefCount(owners, h, o) > 0;
  }

  lemma RefCountAfterRelease(owners: OwnerCounts, h: string, o: string, h': string, o': string)
    requires h in owners
    ensures RefCount(Release(owners, h, o), h', o')
         == RefCount(owners, h', o') - (if h' == h && o' == o then 1 else 0)
  {
  }

  lemma RefCountAfterAcquire(owners: OwnerCounts, h: string, o: string, h': string, o': string)
    ensures RefCount(Acquire(owners, h, o), h', o')
         == RefCount(owners, h', o') + (if h' == h && o' == o then 1 else 0)
  {
  }

  /** The decrement is charged to the caller, so the counts stay exact exactly when the path is
      new or was published by the caller. */
  lemma CountsStayExactIff(owners: OwnerCounts, m: Index, ex: Path, fi: Option<FileInfo>, owner: string)
    requires CountsExact(owners, m)
    requires ex in m ==> m[ex].info.hash in owners
    ensures CountsExact(CountsStep(owners, Lookup(m, ex), fi, owner), Apply(m, ex, fi, owner))
       <==> OneOwner(m, ex, owner)
  {
    var after := CountsStep(owners, Lookup(m, ex), fi, owner);
    var m' := Apply(m, ex, fi, owner);
    forall h, o
      ensures RefCount(after, h, o) == RefCount(owners, h, o)
                - (if ex in m && m[ex].info.hash == h && o == owner then 1 else 0)
                + (if fi.Some? && fi.value.hash == h && o == owner then 1 else 0)
    {
      var released := if ex in m then Release(owners, m[ex].info.hash, owner) else owners;
      if ex in m { RefCountAfterRelease(owners, m[ex].info.hash, owner, h, o); }
      if fi.Some? { RefCountAfterAcquire(released, fi.value.hash, owner, h, o); }
    }
    forall h, o
      ensures |Holding(m', h, o)| == |Holding(m, h, o)|
                - (if ex in m && Counts(m[ex], h, o) then 1 else 0)
                + (if fi.Some? && Counts(Entry(fi.value, owner), h, o) then 1 else 0)
    {
      HoldingAfterRemoval(m, ex, h, o);
      if fi.Some? { HoldingAfterPut(m, ex, Entry(fi.value, owner), h, o); }
    }
    if OneOwner(m, ex, owner) {
      forall h, o ensures RefCount(after, h, o) == |Holding(m', h, o)| {}
      CountsPositive(owners, m, ex, fi, owner);
    } else {
      var h, o := m[ex].info.hash, m[ex].owner;
      assert RefCount(after, h, o) == |Holding(m', h, o)| + 1;
    }
  }

  /** Another peer's delete takes its own count below zero, and the publisher's stays. */
  lemma OthersDeleteGoesNegative(p: Path, info: FileInfo, publisher: string, other: string)
    requires publisher != other
    ensures var owners, m := map[info.hash := map[publisher := 1]], map[p := Entry(info, publisher)];
      && CountsExact(owners, m)
      && RefCount(CountsStep(owners, Lookup(m, p), None, other), info.hash, other) == -1
      && RefCount(CountsStep(owners, Lookup(m, p), None, other), info.hash, publisher) == 1
  {
    var m := map[p := Entry(info, publisher)];
    forall h, o ensures |Holding(m, h, o)| == if h == info.hash && o == publisher then 1 else 0 {
      assert Holding(m, h, o) == if h == info.hash && o == publisher then {p} else {};
    }
  }

  lemma CountsPositive(owners: OwnerCounts, m: Index, ex: Path, fi: Option<FileInfo>, owner: string)
    requires CountsExact(owners, m) && OneOwner(m, ex, owner)
    requires ex in m ==> m[ex].info.hash in owners
    ensures var after := CountsStep(owners, Lookup(m, ex), fi, owner);
      forall h, o :: h in after && o in after[h] ==> after[h][o] > 0
  {
    var released := if ex in m then Release(owners, m[ex].info.hash, owner) else owners;
    if ex in m {
      HashIsIndexed(owners, m, ex);
    }
    forall h, o | h in released && o in released[h] ensures released[h][o] > 0 {
      assert h in owners && o in owners[h] && owners[h][o] > 0;
    }
  }

  lemma OwnersAreThoseListed(owners: OwnerCounts, m: Index, h: string)
    requires CountsExact(owners, m)
    ensures (if h in owners then owners[h].Keys else {}) == OwnersOf(m, h)
  {
    forall o ensures (h in owners && o in owners[h]) <==> o in OwnersOf(m, h) {
      OwnersOfHolding(m, h, o);
      assert RefCount(owners, h, o) == |Holding(m, h, o)|;
    }
  }

  /** With exact counts the victims are the hashes that only this peer has. */
  lemma VictimsAreOwn(owners: OwnerCounts, m: Index, owner: string)
    requires CountsExact(owners, m)
    ensures forall h :: h in VictimsOf(owners, owner) <==> OwnersOf(m, h) == {owner}
    ensures Attributed(owners, m, VictimsOf(owners, owner), owner)
  {
    forall h ensures h in VictimsOf(owners, owner) <==> OwnersOf(m, h) == {owner} {
      OwnersAreThoseListed(owners, m, h);
    }
    forall p | p in m && m[p].info.hash in VictimsOf(owners, owner) ensures m[p].owner == owner {
      assert m[p].owner in OwnersOf(m, m[p].info.hash);
    }
  }

  lemma OnlyMember(s: set<string>, x: string)
    ensures x in s && |s| == 1 <==> s == {x}
  {
    if x in s && |s| == 1 {
      assert |s - {x}| == 0;
      assert s - {x} == {};
    }
  }

  // ---------------------------------------------------------------------------------------
  // The tree
  // ---------------------------------------------------------------------------------------

  class Directory {
    var dirs: map<string, Directory>
    var files: map<string, FileInfo>
    var refs: int

    /** Where the directory hangs, or hung, in the tree. */
    ghost const path: Path

    constructor (ghost path: Path)
      ensures dirs == map[] && files == map[] && refs == 0 && this.path == path
    {
      dirs, files, refs := map[], map[], 0;
      this.path := path;
    }

    ghost predicate Empty()
      reads this
    {
      dirs == map[] && files == map[]
    }

    /** By how much refs exceeds the number of children. */
    ghost function Surplus(): int
      reads this
    {
      refs - |dirs| - |files|
    }

    /** Lines 53-54. */
    method AddDir(n: string, c: Directory)
      requires n !in dirs
      modifies this
      ensures dirs == old(dirs)[n := c] && files == old(files)
      ensures Surplus() == old(Surplus())
    {
      refs := refs + 1;
      dirs := dirs[n := c];
    }

    /** Lines 81-84. */
    method PutFile(n: string, fi: FileInfo)
      modifies this
      ensures dirs == old(dirs) && files == old(files)[n := fi]
      ensures Surplus() == old(Surplus())
    {
      if n !in files {
        refs := refs + 1;
      }
      files := files[n := fi];
    }

    /** Line 71. */
    method Unref()
      modifies this
      ensures dirs == old(dirs) && files == old(files) && refs == old(refs) - 1
      ensures Surplus() == old(Surplus()) - 1
      ensures Surplus() == 0 ==> (refs > 0 <==> !Empty())
    {
      refs := refs - 1;
      if Surplus() == 0 && refs <= 0 {
        assert dirs.Keys == {} && files.Keys == {};
      }
    }

    /** Line 68; the count is left to the pruning loop. */
    method DeleteFile(n: string)
      requires n in files
      modifies this
      ensures dirs == old(dirs) && files == old(files) - {n} && refs == old(refs)
      ensures Surplus() == old(Surplus()) + 1
    {
      CardinalityAfterRemoval(files, n);
      files := files - {n};
    }

    /** Line 76; the count is left to the next round of the pruning loop. */
    method DeleteDir(n: string)
      requires n in dirs
      modifies this
      ensures dirs == old(dirs) - {n} && files == old(files) && refs == old(refs)
      ensures Surplus() == old(Surplus()) + 1
    {
      CardinalityAfterRemoval(dirs, n);
      dirs := dirs - {n};
    }
  }

  lemma CardinalityAfterRemoval<X, Y>(m: map<X, Y>, k: X)
    requires k in m
    ensures |m - {k}| == |m| - 1
  {
  }

  ghost predicate HangsAt(tree: map<Path, Directory>, p: Path, d: Directory) {
    p in tree && tree[p] == d
  }

  /** trace[k] is the directory at ex[0..k]. */
  ghost predicate Traced(tree: map<Path, Directory>, ex: Path, trace: seq<Directory>, n: int) {
    && 0 <= n <= |ex| && |trace| == n
    && forall k :: 0 <= k < n ==> HangsAt(tree, ex[..k + 1], trace[k])
  }

  lemma TraceGrows(tree: map<Path, Directory>, tree': map<Path, Directory>, ex: Path, trace: seq<Directory>, n: int)
    requires Traced(tree, ex, trace, n) && n < |ex| && ex[..n + 1] in tree'
    requires forall p :: p in tree ==> p in tree' && tree'[p] == tree[p]
    ensures Traced(tree', ex, trace + [tree'[ex[..n + 1]]], n + 1)
  {
  }

  lemma TraceShrinks(tree: map<Path, Directory>, ex: Path, trace: seq<Directory>, i: nat)
    requires i < |ex| && i < |trace|
    requires forall k :: 0 <= k <= i ==> HangsAt(tree, ex[..k + 1], trace[k])
    ensures forall k :: 0 <= k < i ==> HangsAt(tree - {ex[..i + 1]}, ex[..k + 1], trace[k])
  {
    forall k | 0 <= k < i ensures HangsAt(tree - {ex[..i + 1]}, ex[..k + 1], trace[k]) {
      assert HangsAt(tree, ex[..k + 1], trace[k]);
      assert |ex[..k + 1]| != |ex[..i + 1]|;
    }
  }

  // ---------------------------------------------------------------------------------------
  // Removing the files below d whose hash is a victim
  // ---------------------------------------------------------------------------------------

  ghost predicate IsVictim(m: Index, p: Path, d: Path, victims: set<string>)
    requires p in m
  {
    d < p && m[p].info.hash in victims
  }

  /** m' is m without some of the victims below d. */
  ghost predicate LessVictims(m: Index, m': Index, d: Path, victims: set<string>) {
    && (forall p :: p in m' ==> p in m && m'[p] == m[p])
    && (forall p :: p in m && p !in m' ==> IsVictim(m, p, d, victims))
  }

  /** The victims directly in d that are left are called by one of the names. */
  ghost predicate OnlyNamed(m: Index, d: Path, victims: set<string>, names: set<string>) {
    forall n {:trigger Child(d, n)} :: Child(d, n) in m && m[Child(d, n)].info.hash in victims ==> n in names
  }

  /** What is left after the file called n in d was looked at. */
  function AfterOne(m: Index, d: Path, n: string, victims: set<string>): Index {
    var ex := Child(d, n);
    if ex in m && m[ex].info.hash in victims then m - {ex} else m
  }

  lemma AfterOneClears(m: Index, m': Index, d: Path, n: string, victims: set<string>, names: set<string>)
    requires LessVictims(m, m', d, victims) && OnlyNamed(m', d, victims, names)
    ensures LessVictims(m, AfterOne(m', d, n, victims), d, victims)
    ensures OnlyNamed(AfterOne(m', d, n, victims), d, victims, names - {n})
  {
  }

  /** m without all the victims below d. */
  function Without(m: Index, d: Path, victims: set<string>): Index {
    map p | p in m && !(d < p && m[p].info.hash in victims) :: m[p]
  }

  /** The victims below d that are left lie below one of the named subdirectories. */
  ghost predicate OnlyUnder(m: Index, d: Path, victims: set<string>, names: set<string>) {
    forall p :: p in m && IsVictim(m, p, d, victims) ==> |p| > |d| + 1 && p[|d|] in names
  }

  lemma WithoutClears(m: Index, m': Index, d: Path, n: string, victims: set<string>, names: set<string>)
    requires LessVictims(m, m', d, victims) && OnlyUnder(m', d, victims, names)
    ensures LessVictims(m, Without(m', Child(d, n), victims), d, victims)
    ensures OnlyUnder(Without(m', Child(d, n), victims), d, victims, names - {n})
  {
  }

  lemma SurvivingIsWithout(m: Index, o: string, victims: set<string>)
    requires Named(m) && forall h :: h in victims <==> OwnersOf(m, h) == {o}
    ensures Surviving(m, o) == Without(m, [], victims)
    ensures forall p :: p in m && m[p].info.hash in victims ==> m[p].owner == o
  {
    assert forall p :: p in m ==> m[p].owner in OwnersOf(m, m[p].info.hash);
  }

  lemma NothingBelow(m: Index, d: Path, victims: set<string>)
    requires d != [] && !IsDir(m, d)
    ensures Without(m, d, victims) == m
  {
  }

  lemma AllCleared(m: Index, m': Index, d: Path, victims: set<string>)
    requires LessVictims(m, m', d, victims) && OnlyUnder(m', d, victims, {})
    ensures m' == Without(m, d, victims)
  {
  }

  /** The walk along ex reaches ex[0..i], and the next component is empty or hidden. */
  ghost predicate StopsInvalid(m: Index, ex: Path, i: nat)
    requires i < |ex|
  {
    IsDir(m, ex[..i]) && (ex[i] == "" || ex[i][0] == '.') && forall k :: 0 <= k < i ==> ex[k] != "" && ex[k][0] != '.'
  }

  /** The walk along ex reaches ex[0..i], and the next component names no directory there. */
  ghost predicate StopsMissing(m: Index, ex: Path, i: nat)
    requires i < |ex|
  {
    IsDir(m, ex[..i]) && !IsDir(m, ex[..i + 1]) && forall k :: 0 <= k <= i ==> ex[k] != "" && ex[k][0] != '.'
  }

  predicate IsPrefix(d: Path, ex: Path, i: nat) {
    i <= |ex| && d == ex[..i]
  }

  /** The view is the store of m with the directories down to ex[0..i] made. */
  ghost predicate MadeTo(view: Store, s: Store, m: Index, ex: Path, i: nat) {
    forall d {:trigger IsPrefix(d, ex, i)} :: IsPrefix(d, ex, i) ==> Implements(s, m) && view == MakeDirs(s, d)
  }

  class Database {
    var fileTree: Directory
    var owners: OwnerCounts
    /** Every directory object, by the path at which it hangs. */
    ghost var tree: map<Path, Directory>
    /** What those objects hold. */
    ghost var shape: Store
    /** The flat map that this database implements. */
    ghost var index: Index

    constructor ()
      ensures Valid() && index == map[] && CountsExact(owners, index)
      ensures fresh(fileTree) && tree == map[[] := fileTree]
    {
      fileTree := new Directory([]);
      owners := map[];
      index := map[];
      shape := map[[] := NO_ENTRIES];
      new;
      tree := map[[] := fileTree];
      assert View() == shape by { assert View()[[]].dirs == {}; }
      assert forall h, o :: Holding(index, h, o) == {};
    }

    /** The objects hang where `tree` says. */
    ghost predicate Wired()
      reads this`tree, this`fileTree, tree.Values
    {
      && [] in tree && tree[[]] == fileTree
      && (forall p :: p in tree ==> tree[p].path == p)
      && (forall p, n {:trigger n in tree[p].dirs} :: p in tree && n in tree[p].dirs && Child(p, n) in tree ==>
            tree[p].dirs[n] == tree[Child(p, n)])
    }

    /** The contents of the objects. */
    ghost function View(): Store
      reads this`tree, tree.Values
    {
      map p | p in tree :: Node(tree[p].dirs.Keys, tree[p].files)
    }

    /** refs is the number of children; the directory at x may be `extra` too high. */
    ghost predicate Counted(x: Path, extra: int)
      reads this`tree, tree.Values
    {
      forall p {:trigger tree[p].Surplus()} :: p in tree ==>
        tree[p].Surplus() == if p == x then extra else 0
    }

    /** The objects and the counts are those of the flat map m. */
    ghost predicate Represents(s: Store, m: Index)
      reads this`tree, this`fileTree, this`owners, tree.Values
    {
      Wired() && Counted([], 0) && View() == s && Implements(s, m) && HashesKnown(owners, m)
    }

    ghost predicate Valid()
      reads this, tree.Values
    {
      Represents(shape, index)
    }

    /** Compared with `was`, directories only left the tree, and those that left are empty. */
    ghost predicate Shrunk(was: map<Path, Directory>)
      reads this`tree, was.Values
    {
      && tree.Keys <= was.Keys
      && forall p :: p in was ==>
          && was[p].path == p
          && if p in tree then tree[p] == was[p] else was[p].Empty()
    }

    /** A new, empty directory appeared at x and is listed by its parent. */
    twostate predicate Gained(x: Path)
      requires x != []
      reads this, tree.Values
    {
      && Init(x) in old(tree) && x !in old(tree) && fileTree == old(fileTree)
      && Init(x) in tree && x in tree && tree == old(tree)[x := tree[x]]
      && tree[x].path == x && tree[x].Empty()
      && tree[Init(x)].dirs == old(tree[Init(x)].dirs)[Last(x) := tree[x]]
      && tree[Init(x)].files == old(tree[Init(x)].files)
      && forall q :: q in old(tree) && q != Init(x) ==> unchanged(tree[q])
    }

    twostate lemma GainedWired(x: Path)
      requires x != [] && old(Wired()) && Gained(x)
      ensures Wired()
    {
      IsChild(x);
    }

    twostate lemma GainedCounted(x: Path)
      requires x != [] && old(Wired()) && old(Counted([], 0)) && Gained(x)
      requires tree[x].Surplus() == 0 && tree[Init(x)].Surplus() == old(tree[Init(x)].Surplus())
      ensures Counted([], 0)
    {
    }

    twostate lemma GainedView(x: Path)
      requires x != [] && old(Wired()) && Gained(x)
      ensures View() == DirTree.AddDir(old(View()), Init(x), Last(x))
    {
      IsChild(x);
      var p := Init(x);
      var after := DirTree.AddDir(old(View()), p, Last(x));
      assert View().Keys == after.Keys;
      forall q | q in tree ensures View()[q] == after[q] {
        if q == p {
          assert tree[p].dirs.Keys == old(tree[p].dirs.Keys) + {Last(x)};
        } else if q == x {
          assert tree[q].dirs.Keys == NO_ENTRIES.dirs;
        }
      }
    }

    method AttachChild(ghost p: Path, t: Directory, n: string) returns (c: Directory)
      requires Wired() && p in tree && tree[p] == t && Child(p, n) !in tree && n !in t.dirs
      modifies this`tree, t
      ensures Gained(Child(p, n)) && tree[p] == t && tree[Child(p, n)] == c && fresh(c)
      ensures c.Surplus() == 0 && t.Surplus() == old(t.Surplus())
    {
      c := new Directory(Child(p, n));
      t.AddDir(n, c);
      tree := tree[Child(p, n) := c];
    }

    /** Lines 53-55: a missing directory is made and counted in its parent. */
    method MakeChild(ghost p: Path, t: Directory, n: string) returns (c: Directory)
      requires Wired() && Counted([], 0) && Linked(View())
      requires p in tree && tree[p] == t && n !in t.dirs
      modifies this`tree, t
      ensures Wired() && Counted([], 0) && View() == DirTree.AddDir(old(View()), p, n)
      ensures fresh(c) && tree == old(tree)[Child(p, n) := c]
    {
      assert Child(p, n) !in View();
      c := AttachChild(p, t, n);
      GainedWired(Child(p, n));
      GainedCounted(Child(p, n));
      GainedView(Child(p, n));
    }

    lemma ChildHangs(d: Path, t: Directory, n: string)
      requires Wired() && Linked(View()) && HangsAt(tree, d, t) && n in t.dirs
      ensures HangsAt(tree, Child(d, n), t.dirs[n])
    {
      assert n in View()[d].dirs;
      assert Child(d, n) in View();
    }

    lemma ChildIsListed(d: Path, t: Directory, n: string)
      requires Wired() && Linked(View()) && HangsAt(tree, d, t) && Child(d, n) in tree
      ensures n in t.dirs
    {
      assert n in View()[d].dirs;
    }

    /** Lines 45-56 for the component n below the directory t at d. */
    method NextDir(ghost d: Path, t: Directory, n: string, deletion: bool) returns (found: bool, t': Directory)
      requires Wired() && Counted([], 0) && Linked(View()) && HangsAt(tree, d, t)
      modifies this`tree, tree.Values
      ensures Wired() && Counted([], 0) && old(tree).Keys <= tree.Keys
      ensures forall p :: p in old(tree) ==> tree[p] == old(tree[p])
      ensures forall p :: p in tree && p !in old(tree) ==> fresh(tree[p])
      ensures deletion || Child(d, n) in old(tree) ==> tree == old(tree) && View() == old(View())
      ensures !deletion && Child(d, n) !in old(tree) ==> View() == DirTree.AddDir(old(View()), d, n)
      ensures found ==> HangsAt(tree, Child(d, n), t')
      ensures found <==> !deletion || Child(d, n) in old(tree)
    {
      found, t' := n in t.dirs || !deletion, t;
      if n in t.dirs {
        ChildHangs(d, t, n);
        t' := t.dirs[n];
      } else {
        if Child(d, n) in tree {
          ChildIsListed(d, t, n);
        }
        if !deletion {
          t' := MakeChild(d, t, n);
        }
      }
    }

    /** The walk along ex has reached t at ex[0..i]; a deletion makes no directories. */
    ghost predicate Descending(was: map<Path, Directory>, ex: Path, i: nat, t: Directory, trace: seq<Directory>,
                               deletion: bool)
      reads this`tree, this`fileTree, this`shape, this`index, tree.Values
    {
      && i < |ex| && Wired() && Counted([], 0) && MadeTo(View(), shape, index, ex, i)
      && (deletion ==> tree == was && View() == shape) && HangsAt(tree, ex[..i], t) && Traced(tree, ex, trace, i)
    }

    method DescendOne(ghost was: map<Path, Directory>, ex: Path, i: nat, t: Directory, trace: seq<Directory>,
                      deletion: bool)
      returns (found: bool, t': Directory, trace': seq<Directory>)
      requires i + 1 < |ex| && Descending(was, ex, i, t, trace, deletion)
      modifies this`tree, tree.Values
      ensures forall p :: p in tree ==> (p in old(tree) && tree[p] == old(tree[p])) || fresh(tree[p])
      ensures found ==> Descending(was, ex, i + 1, t', trace', deletion)
      ensures !found ==> deletion && tree == old(tree) && View() == old(View()) && Wired() && Counted([], 0)
      ensures !found ==> Init(ex) !in tree
    {
      ghost var before := tree;
      assert IsPrefix(ex[..i], ex, i);
      NextMade(shape, index, ex, i);
      found, t' := NextDir(ex[..i], t, ex[i], deletion);
      if found {
        TraceGrows(before, tree, ex, trace, i);
      }
      trace' := trace + [t'];
    }

    method DescendAll(ex: Path, deletion: bool) returns (found: bool, t: Directory, trace: seq<Directory>)
      requires ex != [] && Descending(tree, ex, 0, fileTree, [], deletion)
      modifies this`tree, tree.Values
      ensures forall p :: p in tree ==> (p in old(tree) && tree[p] == old(tree[p])) || fresh(tree[p])
      ensures found ==> Descending(old(tree), ex, |ex| - 1, t, trace, deletion)
      ensures !found ==> deletion && tree == old(tree) && View() == old(View()) && Wired() && Counted([], 0)
      ensures !found ==> Init(ex) !in tree
    {
      found, t, trace := true, fileTree, [];
      var i := 0;
      while i < |ex| - 1
        invariant 0 <= i <= |ex| - 1 && found && Descending(old(tree), ex, i, t, trace, deletion)
        invariant forall p :: p in tree ==> (p in old(tree) && tree[p] == old(tree[p])) || fresh(tree[p])
      {
        found, t, trace := DescendOne(old(tree), ex, i, t, trace, deletion);
        if !found {
          return;
        }
        i := i + 1;
      }
    }

    /** Lines 42-58. For every i, trace[i] is the directory at ex[0..i], both ends included. */
    method Descend(ex: Path, deletion: bool) returns (found: bool, t: Directory, trace: seq<Directory>)
      requires ex != [] && Wired() && Counted([], 0) && View() == shape && Implements(shape, index)
      modifies this`tree, tree.Values
      ensures Wired() && Counted([], 0)
      ensures deletion ==> tree == old(tree) && View() == old(View()) && (found <==> Init(ex) in tree)
      ensures !deletion ==> found && View() == MakeDirs(old(View()), Init(ex))
      ensures found ==> Init(ex) in tree && t == tree[Init(ex)] && Traced(tree, ex, trace, |ex| - 1)
      ensures forall p :: p in tree ==> (p in old(tree) && tree[p] == old(tree[p])) || fresh(tree[p])
    {
      assert ex[..0] == [];
      found, t, trace := DescendAll(ex, deletion);
      assert IsPrefix(Init(ex), ex, |ex| - 1);
    }

    // -------------------------------------------------------------------------------------
    // Changing files, and removing directories
    // -------------------------------------------------------------------------------------

    /** Only the directory at d was touched, and not its subdirectories. */
    twostate predicate Edited(d: Path)
      reads this, tree.Values
    {
      && tree == old(tree) && fileTree == old(fileTree) && d in tree && tree[d].dirs == old(tree[d].dirs)
      && forall q :: q in tree && q != d ==> unchanged(tree[q])
    }

    twostate lemma EditedKeeps(d: Path)
      requires old(Wired()) && Edited(d)
      ensures Wired()
      ensures old(Counted(d, tree[d].Surplus())) ==> Counted(d, tree[d].Surplus())
      ensures View() == old(View())[d := old(View())[d].(files := tree[d].files)]
    {
      forall q | q in tree && q != d ensures View()[q] == old(View())[q] {
        assert unchanged(tree[q]);
      }
      forall q | q in tree && q != d && old(Counted(d, tree[d].Surplus())) ensures tree[q].Surplus() == 0 {
        assert old(tree[q].Surplus()) == 0;
      }
    }

    /** The directory at x is gone from the tree and from its parent. */
    twostate predicate Lost(x: Path)
      requires x != []
      reads this, tree.Values
    {
      && x in old(tree) && Init(x) in old(tree) && Init(x) in tree
      && tree == old(tree) - {x} && fileTree == old(fileTree)
      && tree[Init(x)].dirs == old(tree[Init(x)].dirs) - {Last(x)}
      && tree[Init(x)].files == old(tree[Init(x)].files)
      && forall q :: q in tree && q != Init(x) ==> unchanged(tree[q])
    }

    twostate lemma LostWired(x: Path)
      requires x != [] && old(Wired()) && Lost(x)
      ensures Wired()
    {
    }

    twostate lemma LostCounted(x: Path)
      requires x != [] && old(Wired()) && old(Counted([], 0)) && Lost(x)
      requires tree[Init(x)].Surplus() == old(tree[Init(x)].Surplus()) + 1
      ensures Counted(Init(x), 1)
    {
    }

    twostate lemma LostView(x: Path)
      requires x != [] && old(Wired()) && Lost(x)
      ensures View() == DropDir(old(View()), Init(x), Last(x))
    {
      IsChild(x);
      var after := DropDir(old(View()), Init(x), Last(x));
      assert View().Keys == after.Keys;
      forall q | q in tree ensures View()[q] == after[q] {
        if q == Init(x) {
          assert tree[q].dirs.Keys == old(tree[q].dirs.Keys) - {Last(x)};
        }
      }
    }

    method Detach(ghost p: Path, parent: Directory, n: string)
      requires Wired() && p in tree && tree[p] == parent && Child(p, n) in tree && n in parent.dirs
      modifies this`tree, parent
      ensures Lost(Child(p, n)) && tree[p].Surplus() == old(tree[p].Surplus()) + 1
    {
      assert Child(p, n) != p by { assert |Child(p, n)| == |p| + 1; }
      parent.DeleteDir(n);
      tree := tree - {Child(p, n)};
    }

    method Unlink(ghost p: Path, parent: Directory, n: string)
      requires Wired() && Counted([], 0) && n in parent.dirs
      requires p in tree && tree[p] == parent && Child(p, n) in tree
      modifies this`tree, parent
      ensures Wired() && Counted(p, 1) && View() == DropDir(old(View()), p, n)
      ensures tree == old(tree) - {Child(p, n)}
    {
      Detach(p, parent, n);
      LostWired(Child(p, n));
      LostCounted(Child(p, n));
      LostView(Child(p, n));
    }

    method PutInto(ghost d: Path, t: Directory, n: string, fi: FileInfo)
      requires Wired() && Counted([], 0) && d in tree && tree[d] == t
      modifies t
      ensures Wired() && Counted([], 0) && View() == DirTree.PutFile(old(View()), d, n, fi)
    {
      t.PutFile(n, fi);
      EditedKeeps(d);
    }

    method DeleteFrom(ghost d: Path, t: Directory, n: string)
      requires Wired() && Counted([], 0) && d in tree && tree[d] == t && n in t.files
      modifies t
      ensures Wired() && Counted(d, 1) && View() == DropFile(old(View()), d, n)
    {
      t.DeleteFile(n);
      EditedKeeps(d);
    }

    method UnrefAt(ghost d: Path, t: Directory)
      requires Wired() && Counted(d, 1) && d in tree && tree[d] == t
      modifies t
      ensures Wired() && Counted([], 0) && View() == old(View())
      ensures t.refs > 0 <==> !old(View())[d].Empty()
    {
      assert t.Surplus() == 1;
      t.Unref();
      EditedKeeps(d);
      assert View()[d].Empty() <==> t.Empty();
    }

    twostate lemma ShrunkFurther(was: map<Path, Directory>)
      requires old(Shrunk(was)) && Shrunk(old(tree))
      requires forall p :: p in was && p !in old(tree) ==> unchanged(was[p])
      ensures Shrunk(was)
    {
    }

    /** t, called n in its parent and holding what s says, has just lost a child. */
    method TryRemove(ghost s: Store, ghost p: Path, n: string, t: Directory, parent: Directory)
      returns (done: bool)
      requires Wired() && Counted(Child(p, n), 1) && View() == s
      requires HangsAt(tree, Child(p, n), t) && HangsAt(tree, p, parent) && n in s[p].dirs
      modifies this`tree, t, parent
      ensures done <==> !s[Child(p, n)].Empty()
      ensures done ==> Wired() && Counted([], 0) && View() == s && tree == old(tree)
      ensures !done ==> Wired() && Counted(p, 1) && View() == DropDir(s, p, n)
      ensures !done ==> tree == old(tree) - {Child(p, n)} && t.Empty()
    {
      UnrefAt(Child(p, n), t);
      if t.refs > 0 {
        return true;
      }
      assert t.Empty() by { assert View()[Child(p, n)].Empty(); }
      assert n in parent.dirs by { assert n in View()[p].dirs; }
      Unlink(p, parent, n);
      return false;
    }

    /** One round of the repaired loop. */
    method PruneOne(ghost was: map<Path, Directory>, ghost s: Store, ghost p: Path, n: string,
                    t: Directory, parent: Directory)
      returns (done: bool)
      requires Shrunk(was) && Wired() && Counted(Child(p, n), 1) && View() == s
      requires HangsAt(tree, Child(p, n), t) && HangsAt(tree, p, parent) && n in s[p].dirs
      modifies this`tree, t, parent
      ensures Shrunk(was) && (done <==> !s[Child(p, n)].Empty())
      ensures done ==> Wired() && Counted([], 0) && View() == s
      ensures !done ==> Wired() && Counted(p, 1) && View() == DropDir(s, p, n)
      ensures !done ==> tree == old(tree) - {Child(p, n)}
    {
      done := TryRemove(s, p, n, t, parent);
      ShrunkFurther(was);
    }

    method UnrefRoot(ghost was: map<Path, Directory>)
      requires Wired() && Counted([], 1) && Shrunk(was)
      modifies fileTree
      ensures Wired() && Counted([], 0) && View() == old(View()) && Shrunk(was)
    {
      UnrefAt([], fileTree);
      ShrunkFurther(was);
    }

    /** Before the round for trace[i], with s in the objects: ex[0..i] has just lost a child, and
        pruning there is what is left to do. */
    ghost predicate Pruning(was: map<Path, Directory>, ex: Path, trace: seq<Directory>, i: int, s: Store, goal: Store)
      reads this`tree, this`fileTree, tree.Values, was.Values
    {
      && -1 <= i < |ex| && i < |trace|
      && Wired() && ex[..i + 1] in tree && Counted(ex[..i + 1], 1) && View() == s
      && (forall k :: 0 <= k <= i ==> HangsAt(tree, ex[..k + 1], trace[k]))
      && Linked(s) && Prune(s, ex[..i + 1]) == goal && Shrunk(was)
    }

    /** The repaired loop's body: trace[i] is removed from its parent if nothing is left in it. */
    method PruneRound(ghost was: map<Path, Directory>, ex: Path, trace: seq<Directory>, i: nat, ghost s: Store,
                      ghost goal: Store)
      returns (done: bool, ghost s': Store)
      requires Pruning(was, ex, trace, i, s, goal)
      modifies this`tree, tree.Values
      ensures done ==> Wired() && Counted([], 0) && View() == goal && Shrunk(was)
      ensures !done ==> Pruning(was, ex, trace, i - 1, s', goal)
      ensures !done ==> forall p :: p in tree ==> p in old(tree) && tree[p] == old(tree[p])
    {
      ghost var p := ex[..i];
      PrefixIsChild(ex, i);
      assert HangsAt(tree, ex[..i + 1], trace[i]);
      assert i > 0 ==> HangsAt(tree, ex[..i - 1 + 1], trace[i - 1]);
      var parent := if i > 0 then trace[i - 1] else fileTree;
      TraceShrinks(tree, ex, trace, i);
      done := PruneOne(was, s, p, ex[i], trace[i], parent);
      if !done {
        DropDirLinked(s, p, ex[i]);
      }
      s' := DropDir(s, p, ex[i]);
    }

    /** Lines 69-77 repaired: the loop runs from the deepest directory up, a directory left
        without children is removed from its parent, the root being the parent of trace[0], and
        the root's own count is kept as well. */
    method PruneRepaired(ex: Path, trace: seq<Directory>)
      requires ex != [] && Wired() && Counted(Init(ex), 1) && Traced(tree, ex, trace, |ex| - 1)
      requires Init(ex) in tree && Linked(View())
      modifies this`tree, tree.Values
      ensures Wired() && Counted([], 0)
      ensures View() == Prune(old(View()), Init(ex)) && Shrunk(old(tree))
    {
      ghost var s, was := View(), tree;
      ghost var goal := Prune(s, Init(ex));
      var i := |trace| - 1;
      while i >= 0
        invariant Pruning(was, ex, trace, i, s, goal)
        invariant forall p :: p in tree ==> p in was && tree[p] == was[p]
      {
        var done;
        done, s := PruneRound(was, ex, trace, i, s, goal);
        if done {
          return;
        }
        i := i - 1;
      }
      UnrefRoot(was);
    }

    // -------------------------------------------------------------------------------------
    // setFileLocked
    // -------------------------------------------------------------------------------------

    /** Lines 60-65 and 85-88: the caller gives up its reference to the old file's hash and takes
        one to the new file's. */
    method Recount(ghost ex: Path, t: Directory, n: string, fi: Option<FileInfo>, owner: string)
      requires n in t.files <==> ex in index
      requires ex in index ==> t.files[n] == index[ex].info
      requires HashesKnown(owners, index) && Wired() && Counted([], 0)
      modifies this`owners
      ensures tree == old(tree) && owners == CountsStep(old(owners), Lookup(index, ex), fi, owner)
      ensures Wired() && Counted([], 0) && View() == old(View())
    {
      var counts := owners;
      if n in t.files {
        counts := Release(counts, t.files[n].hash, owner);
      }
      if fi.Some? {
        counts := Acquire(counts, fi.value.hash, owner);
      }
      owners := counts;
    }

    /** A file of the flat map is found in its directory, before and after Descend. */
    lemma PathInTree(ex: Path, s: Store)
      requires ex != [] && Implements(shape, index) && (s == shape || s == MakeDirs(shape, Init(ex)))
      requires Init(ex) in tree && View() == s
      ensures Last(ex) in tree[Init(ex)].files <==> ex in index
      ensures ex in index ==> tree[Init(ex)].files[Last(ex)] == index[ex].info
    {
      MakeDirsKeeps(shape, index, Init(ex));
      FileAt(s, index, ex);
    }

    /** The put, up to the ghost state. */
    method PutObjects(ex: Path, fi: FileInfo, owner: string)
      requires Valid() && ex != []
      modifies this`tree, this`owners, tree.Values
      ensures Wired() && Counted([], 0) && View() == PutAt(shape, ex, fi)
      ensures forall p :: p in tree ==> (p in old(tree) && tree[p] == old(tree[p])) || fresh(tree[p])
      ensures owners == CountsStep(old(owners), Lookup(index, ex), Some(fi), owner)
    {
      var found, t, trace := Descend(ex, false);
      PathInTree(ex, MakeDirs(shape, Init(ex)));
      Recount(ex, t, Last(ex), Some(fi), owner);
      PutInto(Init(ex), t, Last(ex), fi);
    }

    method PutLocked(ex: Path, fi: FileInfo, owner: string)
      requires Valid() && ex != []
      modifies this, tree.Values
      ensures Valid() && index == Apply(old(index), ex, Some(fi), owner)
      ensures owners == CountsStep(old(owners), Lookup(old(index), ex), Some(fi), owner)
      ensures forall p :: p in tree ==> (p in old(tree) && tree[p] == old(tree[p])) || fresh(tree[p])
    {
      PutRefines(shape, index, ex, fi, owner);
      HashesStayKnown(owners, index, ex, Some(fi), owner);
      PutObjects(ex, fi, owner);
      Commit(PutAt(shape, ex, fi), Apply(index, ex, Some(fi), owner));
    }

    /** Lines 69-77 as written: `for i := len(trace) - 1; 0 >= i; i++`. The guard lets the loop run
        only for i <= 0; at i == -1 the lookup trace[i] panics, and at i == 0 either the directory
        keeps another child or the lookup trace[i-1] panics. Nothing after that is reached. */
    method PruneAsWritten(ghost ex: Path, trace: seq<Directory>) returns (panicked: bool)
      requires ex != [] && Wired() && Counted(Init(ex), 1) && Traced(tree, ex, trace, |ex| - 1)
      requires Init(ex) in tree
      modifies tree.Values
      ensures Wired() && View() == old(View())
      ensures panicked <==> |ex| == 1 || (|ex| == 2 && View()[Init(ex)].Empty())
      ensures !panicked ==> Counted(Init(ex), if |ex| == 2 then 0 else 1)
    {
      panicked := false;
      var i := |trace| - 1;
      if 0 >= i {
        if i < 0 {
          return true;
        }
        assert HangsAt(tree, ex[..0 + 1], trace[0]);
        UnrefAt(Init(ex), trace[0]);
        if trace[0].refs > 0 {
          return false;
        }
        panicked := true;
      }
    }

    /** A delete up to the pruning loop. */
    method TakeOut(ex: Path, t: Directory, owner: string)
      requires Valid() && ex in index && ex != []
      requires HangsAt(tree, Init(ex), t)
      modifies this`owners, t
      ensures owners == CountsStep(old(owners), Lookup(index, ex), None, owner)
      ensures Wired() && Counted(Init(ex), 1)
      ensures View() == DropFile(shape, Init(ex), Last(ex))
    {
      PathInTree(ex, shape);
      Recount(ex, t, Last(ex), None, owner);
      DeleteFrom(Init(ex), t, Last(ex));
    }

    method DeleteObjects(ex: Path, t: Directory, trace: seq<Directory>, owner: string)
      requires Valid() && ex in index && ex != []
      requires HangsAt(tree, Init(ex), t) && Traced(tree, ex, trace, |ex| - 1) && Init(ex) in shape
      modifies this`tree, this`owners, tree.Values
      ensures owners == CountsStep(old(owners), Lookup(index, ex), None, owner) && Wired() && Counted([], 0)
      ensures View() == DeleteAt(shape, ex) && Shrunk(old(tree))
    {
      DropFileLinked(shape, Init(ex), Last(ex));
      TakeOut(ex, t, owner);
      PruneRepaired(ex, trace);
    }

    /** The ghost state follows the objects. */
    ghost method Commit(s: Store, m: Index)
      requires Represents(s, m)
      modifies this`shape, this`index
      ensures Valid() && shape == s && index == m
    {
      shape, index := s, m;
      assert Represents(s, m);
    }

    method DeleteRepaired(ex: Path, t: Directory, trace: seq<Directory>, owner: string)
      requires Valid() && ex in index && ex != []
      requires HangsAt(tree, Init(ex), t) && Traced(tree, ex, trace, |ex| - 1)
      modifies this, tree.Values
      ensures Valid() && Shrunk(old(tree)) && index == Apply(old(index), ex, None, owner)
      ensures owners == CountsStep(old(owners), Lookup(old(index), ex), None, owner)
    {
      DeleteRefines(shape, index, ex, owner);
      HashesStayKnown(owners, index, ex, None, owner);
      DeleteObjects(ex, t, trace, owner);
      Commit(DeleteAt(shape, ex), Apply(index, ex, None, owner));
    }

    method DeleteObjectsAsWritten(ex: Path, t: Directory, trace: seq<Directory>, owner: string)
      returns (panicked: bool)
      requires Valid() && ex in index && ex != []
      requires HangsAt(tree, Init(ex), t) && Traced(tree, ex, trace, |ex| - 1) && Init(ex) in shape
      modifies this`owners, tree.Values
      ensures owners == CountsStep(old(owners), Lookup(index, ex), None, owner) && Wired()
      ensures View() == DropFile(shape, Init(ex), Last(ex))
      ensures panicked <==> |ex| == 1 || (|ex| == 2 && View()[Init(ex)].Empty())
      ensures !panicked ==> Counted(Init(ex), if |ex| == 2 then 0 else 1)
    {
      TakeOut(ex, t, owner);
      panicked := PruneAsWritten(ex, trace);
    }

    /** What DeleteObjectsAsWritten leaves, in terms of the flat map. */
    ghost predicate Broken(x: Path)
      reads this`tree, tree.Values
    {
      x in tree && tree[x].Surplus() == 1
    }

    method DeleteKeepingObjects(ex: Path, t: Directory, trace: seq<Directory>, owner: string)
      returns (panicked: bool)
      requires Valid() && ex in index && ex != []
      requires HangsAt(tree, Init(ex), t) && Traced(tree, ex, trace, |ex| - 1)
      modifies this`owners, tree.Values
      ensures owners == CountsStep(old(owners), Lookup(index, ex), None, owner) && Init(ex) in shape
      ensures |ex| == 2 && Crowded(index, ex) ==>
        !panicked && Wired() && Counted([], 0) && View() == DeleteAt(shape, ex)
      ensures !(|ex| == 2 && Crowded(index, ex)) ==> panicked || Broken(Init(ex))
    {
      CrowdedExactly(shape, index, ex);
      panicked := DeleteObjectsAsWritten(ex, t, trace, owner);
    }

    /** The code as written keeps the tree's invariants only for a two-component path whose
        directory keeps some other file below it. */
    method DeleteAsWritten(ex: Path, t: Directory, trace: seq<Directory>, owner: string)
      returns (panicked: bool)
      requires Valid() && ex in index && ex != []
      requires HangsAt(tree, Init(ex), t) && Traced(tree, ex, trace, |ex| - 1)
      modifies this, tree.Values
      ensures index == Apply(old(index), ex, None, owner)
      ensures owners == CountsStep(old(owners), Lookup(old(index), ex), None, owner)
      ensures |ex| == 2 && Crowded(old(index), ex) ==> !panicked && Valid()
      ensures !(|ex| == 2 && Crowded(old(index), ex)) ==> panicked || Broken(Init(ex))
    {
      ghost var keeps := |ex| == 2 && Crowded(index, ex);
      HashesStayKnown(owners, index, ex, None, owner);
      panicked := DeleteKeepingObjects(ex, t, trace, owner);
      if keeps {
        DeleteRefines(shape, index, ex, owner);
        Commit(DeleteAt(shape, ex), Apply(index, ex, None, owner));
      } else {
        index := Apply(index, ex, None, owner);
      }
    }

    /** setFileLocked. `repaired` chooses the pruning loop; everything else is as written. */
    method SetFileLocked(ex: Path, fi: Option<FileInfo>, owner: string, repaired: bool)
      returns (panicked: bool)
      requires Valid() && ex != []
      modifies this, tree.Values
      ensures index == Apply(old(index), ex, fi, owner)
      ensures owners == CountsStep(old(owners), Lookup(old(index), ex), fi, owner)
      ensures old(CountsExact(owners, index)) ==> (CountsExact(owners, index) <==> OneOwner(old(index), ex, owner))
      ensures repaired ==> !panicked && Valid()
      ensures !repaired ==> (!panicked && Valid() <==>
        fi.Some? || ex !in old(index) || (|ex| == 2 && Crowded(old(index), ex)))
      ensures repaired && fi.None? ==> Shrunk(old(tree))
      ensures repaired ==>
        forall p :: p in tree ==> (p in old(tree) && tree[p] == old(tree[p])) || fresh(tree[p])
    {
      panicked := false;
      if CountsExact(owners, index) {
        CountsStayExactIff(owners, index, ex, fi, owner);
      }
      if fi.Some? {
        PutLocked(ex, fi.value, owner);
      } else {
        panicked := DeleteLocked(ex, owner, repaired);
      }
    }

    method DeleteLocked(ex: Path, owner: string, repaired: bool) returns (panicked: bool)
      requires Valid() && ex != []
      modifies this, tree.Values
      ensures index == Apply(old(index), ex, None, owner)
      ensures owners == CountsStep(old(owners), Lookup(old(index), ex), None, owner)
      ensures repaired ==> !panicked && Valid() && Shrunk(old(tree))
      ensures !repaired ==>
        (!panicked && Valid() <==> ex !in old(index) || (|ex| == 2 && Crowded(old(index), ex)))
    {
      panicked := false;
      var found, t, trace := Descend(ex, true);
      NotStored(ex);
      if !found {
        return;
      }
      PathInTree(ex, shape);
      if Last(ex) in t.files {
        if repaired {
          DeleteRepaired(ex, t, trace, owner);
        } else {
          panicked := DeleteAsWritten(ex, t, trace, owner);
        }
      }
    }

    lemma NotStored(ex: Path)
      requires Wired() && View() == shape && Implements(shape, index) && ex != []
      ensures ex in index ==> Init(ex) in tree
      ensures ex !in index ==> Apply(index, ex, None, "") == index
    {
      IsChild(ex);
    }

    // -------------------------------------------------------------------------------------
    // PeerDisconnected
    // -------------------------------------------------------------------------------------

    lemma FilesListed(d: Path)
      requires Valid() && d in tree
      ensures forall n :: n in tree[d].files <==> Child(d, n) in index
      ensures forall n :: n in tree[d].files ==> tree[d].files[n] == index[Child(d, n)].info
    {
      forall n ensures n in tree[d].files <==> Child(d, n) in index
               ensures n in tree[d].files ==> tree[d].files[n] == index[Child(d, n)].info
      {
        PathInTree(Child(d, n), shape);
      }
    }

    /** What a range over the files of dir sees, whether or not dir still hangs in the tree. */
    lemma EntryOf(was: map<Path, Directory>, dir: Directory, d: Path, n: string)
      requires Valid() && Shrunk(was) && HangsAt(was, d, dir)
      ensures n in dir.files <==> Child(d, n) in index
      ensures n in dir.files ==> dir.files[n] == index[Child(d, n)].info
    {
      if d in tree {
        FilesListed(d);
      } else {
        NotStored(Child(d, n));
      }
    }

    /** Lines 107-114 for one file name. The range over dir.files goes on while the loop deletes
        from it, and sees only entries that are still there. */
    method DestroyOne(ghost was: map<Path, Directory>, dir: Directory, fn: string, victims: set<string>,
                      parents: Path, owner: string)
      requires Valid() && Shrunk(was) && HangsAt(was, parents, dir)
      modifies this, tree.Values
      ensures Valid() && Shrunk(was)
      ensures index == AfterOne(old(index), parents, fn, victims)
      ensures old(Attributed(owners, index, victims, owner)) ==> Attributed(owners, index, victims, owner)
    {
      EntryOf(was, dir, parents, fn);
      if fn in dir.files && dir.files[fn].hash in victims {
        var panicked := SetFileLocked(Child(parents, fn), None, owner, true);
        ShrunkFurther(was);
      }
    }

    /** Lines 106-115. */
    method DestroyFiles(dir: Directory, victims: set<string>, parents: Path, owner: string)
      requires Valid() && HangsAt(tree, parents, dir)
      modifies this, tree.Values
      ensures Valid() && Shrunk(old(tree))
      ensures LessVictims(old(index), index, parents, victims) && OnlyNamed(index, parents, victims, {})
      ensures old(Attributed(owners, index, victims, owner)) ==> Attributed(owners, index, victims, owner)
    {
      ghost var m, was := index, tree;
      var fns := dir.files.Keys;
      FilesListed(parents);
      while fns != {}
        invariant Valid() && Shrunk(was)
        invariant LessVictims(m, index, parents, victims) && OnlyNamed(index, parents, victims, fns)
        invariant old(Attributed(owners, index, victims, owner)) ==> Attributed(owners, index, victims, owner)
        decreases fns
      {
        var fn :| fn in fns;
        AfterOneClears(m, index, parents, fn, victims, fns);
        fns := fns - {fn};
        DestroyOne(was, dir, fn, victims, parents, owner);
      }
    }

    lemma DirListed(was: map<Path, Directory>, dir: Directory, d: Path, n: string)
      requires Valid() && Shrunk(was) && HangsAt(was, d, dir)
      ensures n in dir.dirs <==> IsDir(index, Child(d, n))
      ensures n in dir.dirs ==> d in tree && HangsAt(tree, Child(d, n), dir.dirs[n])
    {
      StoredDirs(shape, index, Child(d, n));
      if d in tree {
        assert n in dir.dirs <==> n in View()[d].dirs;
      }
    }

    lemma DirsListed(was: map<Path, Directory>, dir: Directory, d: Path)
      requires Valid() && Shrunk(was) && HangsAt(was, d, dir)
      ensures forall n :: n in dir.dirs <==> IsDir(index, Child(d, n))
    {
      forall n ensures n in dir.dirs <==> IsDir(index, Child(d, n)) {
        DirListed(was, dir, d, n);
      }
    }

    /** After its files, what is left below a directory lies below its subdirectories. */
    lemma LeftUnderDirs(was: map<Path, Directory>, dir: Directory, d: Path, victims: set<string>)
      requires Valid() && Shrunk(was) && HangsAt(was, d, dir) && OnlyNamed(index, d, victims, {})
      ensures OnlyUnder(index, d, victims, dir.dirs.Keys)
    {
      DirsListed(was, dir, d);
      forall p | p in index && IsVictim(index, p, d, victims) ensures |p| > |d| + 1 && p[|d|] in dir.dirs {
        NextStep(d, p);
        assert p != Child(d, p[|d|]);
        assert IsDir(index, Child(d, p[|d|]));
      }
    }

    /** Line 117 for one subdirectory name; a name deleted meanwhile is not visited. */
    method Enter(ghost was: map<Path, Directory>, dir: Directory, dn: string, victims: set<string>,
                 parents: Path, owner: string, ghost bound: nat)
      requires Valid() && Shrunk(was) && HangsAt(was, parents, dir)
      requires forall p :: p in was ==> |p| <= bound
      modifies this, tree.Values
      ensures Valid() && Shrunk(was) && index == Without(old(index), Child(parents, dn), victims)
      ensures old(Attributed(owners, index, victims, owner)) ==> Attributed(owners, index, victims, owner)
      decreases bound - |parents|, 0
    {
      DirListed(was, dir, parents, dn);
      if dn in dir.dirs {
        assert |Child(parents, dn)| == |parents| + 1;
        EnterExisting(was, dir.dirs[dn], victims, Child(parents, dn), owner, bound);
      } else {
        NothingBelow(index, Child(parents, dn), victims);
      }
    }

    method EnterExisting(ghost was: map<Path, Directory>, sub: Directory, victims: set<string>,
                         d: Path, owner: string, ghost bound: nat)
      requires Valid() && Shrunk(was) && HangsAt(tree, d, sub)
      requires forall p :: p in was ==> |p| <= bound
      modifies this, tree.Values
      ensures Valid() && Shrunk(was) && index == Without(old(index), d, victims)
      ensures old(Attributed(owners, index, victims, owner)) ==> Attributed(owners, index, victims, owner)
      decreases bound - |d|, 2
    {
      SearchAndDestroy(sub, victims, d, owner, bound);
      ShrunkFurther(was);
    }

    /** Lines 104-121. */
    method SearchAndDestroy(dir: Directory, victims: set<string>, parents: Path, owner: string, ghost bound: nat)
      requires Valid() && HangsAt(tree, parents, dir)
      requires forall p :: p in tree ==> |p| <= bound
      modifies this, tree.Values
      ensures Valid() && Shrunk(old(tree)) && index == Without(old(index), parents, victims)
      ensures old(Attributed(owners, index, victims, owner)) ==> Attributed(owners, index, victims, owner)
      decreases bound - |parents|, 1
    {
      ghost var m, was := index, tree;
      DestroyFiles(dir, victims, parents, owner);
      LeftUnderDirs(was, dir, parents, victims);
      var dns := dir.dirs.Keys;
      while dns != {}
        invariant Valid() && Shrunk(was)
        invariant LessVictims(m, index, parents, victims) && OnlyUnder(index, parents, victims, dns)
        invariant old(Attributed(owners, index, victims, owner)) ==> Attributed(owners, index, victims, owner)
        decreases dns
      {
        var dn :| dn in dns;
        WithoutClears(m, index, parents, dn, victims, dns);
        dns := dns - {dn};
        Enter(was, dir, dn, victims, parents, owner, bound);
      }
      AllCleared(m, index, parents, victims);
    }

    /** A hash is a victim when its inner map has one key and that key is the peer. */
    method FindVictims(owner: string) returns (todo: set<string>)
      ensures todo == VictimsOf(owners, owner)
    {
      todo := {};
      var hashes := owners.Keys;
      while hashes != {}
        invariant hashes <= owners.Keys
        invariant forall h :: h in todo <==> h in VictimsOf(owners, owner) && h !in hashes
        decreases hashes
      {
        var hash :| hash in hashes;
        hashes := hashes - {hash};
        OnlyMember(owners[hash].Keys, owner);
        if owner in owners[hash] && |owners[hash]| == 1 {
          todo := todo + {hash};
        }
      }
    }

    /** Lines 92-102: the files of every hash whose inner map names only this peer are removed; with
        exact counts these are exactly the files whose hash only this peer has. */
    method PeerDisconnected(owner: string)
      requires Valid()
      modifies this, tree.Values
      ensures Valid() && index == Without(old(index), [], VictimsOf(old(owners), owner))
      ensures old(CountsExact(owners, index)) ==> CountsExact(owners, index) && index == Surviving(old(index), owner)
    {
      var todo := FindVictims(owner);
      ghost var bound := LengthBound(tree.Keys);
      if CountsExact(owners, index) {
        VictimsAreOwn(owners, index, owner);
        SurvivingIsWithout(index, owner, todo);
      }
      SearchAndDestroy(fileTree, todo, [], owner, bound);
    }

    /** Lines 123-131. */
    method GetOwners(hash: string) returns (r: seq<string>)
      ensures Lists(r, if hash in owners then owners[hash].Keys else {})
      ensures CountsExact(owners, index) ==> Lists(r, OwnersOf(index, hash))
    {
      if CountsExact(owners, index) {
        OwnersAreThoseListed(owners, index, hash);
      }
      r := ListKeys(if hash in owners then owners[hash].Keys else {});
    }

    /** Lines 141-150 for one component. */
    method StepInto(ex: Path, i: nat, t: Directory) returns (err: Option<DirReply>, t': Directory)
      requires Valid() && i < |ex| && HangsAt(tree, ex[..i], t) && Free(ex[i], '/') && ValidNames(ex[..i])
      ensures err.None? ==> HangsAt(tree, ex[..i + 1], t') && ValidName(ex[i])
      ensures err.Some? ==> err.value == InvalidPart || err.value == NoSuchDir
      ensures err == Some(InvalidPart) ==> !ValidName(ex[i])
      ensures err == Some(InvalidPart) ==> StopsInvalid(index, ex, i)
      ensures err == Some(NoSuchDir) ==> !IsDir(index, ex) && StopsMissing(index, ex, i)
    {
      var p := ex[i];
      GoodSoFar(ex, i, t);
      err, t' := None, t;
      if |p| == 0 || p[0] == '.' {
        return Some(InvalidPart), t;
      }
      Down(ex, i, t);
      if p !in t.dirs {
        if IsDir(index, ex) {
          AncestorsAreDirs(index, ex, ex[..i + 1]);
        }
        return Some(NoSuchDir), t;
      }
      t' := t.dirs[p];
    }

    /** Lines 140-150. */
    method Locate(ex: Path) returns (err: Option<DirReply>, t: Directory, ghost at: nat)
      requires Valid() && AllFree(ex, '/')
      ensures err.None? ==> ValidNames(ex) && HangsAt(tree, ex, t)
      ensures err.Some? ==> err.value == InvalidPart || err.value == NoSuchDir
      ensures err == Some(InvalidPart) ==> !ValidNames(ex)
      ensures err == Some(NoSuchDir) ==> !IsDir(index, ex)
      ensures err == Some(InvalidPart) ==> at < |ex| && StopsInvalid(index, ex, at)
      ensures err == Some(NoSuchDir) ==> at < |ex| && StopsMissing(index, ex, at)
    {
      err, t := None, fileTree;
      var i := 0;
      assert ex[..0] == [];
      while i < |ex|
        invariant 0 <= i <= |ex| && HangsAt(tree, ex[..i], t)
        invariant ValidNames(ex[..i])
      {
        at := i;
        err, t := StepInto(ex, i, t);
        if err.Some? {
          return;
        }
        OneMoreName(ex, i);
        i := i + 1;
      }
      at := i;
      assert ex[..|ex|] == ex;
      err := None;
    }

    /** Lines 133-156: the checks run along the path, each part's form before its existence. */
    method GetDir(dir: string) returns (r: DirReply)
      requires Valid()
      ensures r.Listing? <==> (forall n :: n in PathOf(dir) ==> n != "" && n[0] != '.') && IsDir(index, PathOf(dir))
      ensures r.Listing? ==> ValidNames(PathOf(dir)) && IsListing(r, index, PathOf(dir))
      ensures r.InvalidPart? ==> exists n :: n in PathOf(dir) && (n == "" || n[0] == '.')
      ensures r.NoSuchDir? ==> !IsDir(index, PathOf(dir))
      ensures r.InvalidPart? ==> exists i :: 0 <= i < |PathOf(dir)| && StopsInvalid(index, PathOf(dir), i)
      ensures r.NoSuchDir? ==> exists i :: 0 <= i < |PathOf(dir)| && StopsMissing(index, PathOf(dir), i)
    {
      var ex := PathOf(dir);
      NamesSplitOff(dir);
      var err, t, at := Locate(ex);
      if err.Some? {
        return err.value;
      }
      ListingOf(ex, t);
      var dirs := ListKeys(t.dirs.Keys);
      return Listing(t.files, dirs);
    }

    lemma Down(ex: Path, i: nat, t: Directory)
      requires Valid() && i < |ex| && HangsAt(tree, ex[..i], t)
      ensures ex[i] in t.dirs <==> IsDir(index, ex[..i + 1])
      ensures ex[i] in t.dirs ==> HangsAt(tree, ex[..i + 1], t.dirs[ex[i]])
    {
      PrefixIsChild(ex, i);
      DirListed(tree, t, ex[..i], ex[i]);
    }

    lemma GoodSoFar(ex: Path, i: nat, t: Directory)
      requires Valid() && i <= |ex| && HangsAt(tree, ex[..i], t) && ValidNames(ex[..i])
      ensures IsDir(index, ex[..i]) && forall k :: 0 <= k < i ==> ex[k] != "" && ex[k][0] != '.'
    {
      ListingOf(ex[..i], t);
      forall k | 0 <= k < i ensures ex[k] != "" && ex[k][0] != '.' {
        assert ValidName(ex[..i][k]);
      }
    }

    lemma ListingOf(d: Path, t: Directory)
      requires Valid() && HangsAt(tree, d, t)
      ensures IsDir(index, d) && t.files == FilesIn(index, d) && t.dirs.Keys == DirsIn(index, d)
    {
      assert d in View();
      StoredDirs(shape, index, d);
      NodeIsListing(shape, index, d);
      assert View()[d] == Node(t.dirs.Keys, t.files);
    }
  }

  /** As written, deleting the only file panics or breaks the tree, however deep the file is. The put
      does not prune. */
  method OnlyFileDeletedAsWritten(ex: Path, fi: FileInfo, owner: string) returns (db: Database, panicked: bool)
    requires ex != []
    ensures panicked || !db.Valid()
  {
    db := new Database();
    panicked := db.SetFileLocked(ex, Some(fi), owner, true);
    OnlyFile(db.index, ex, Entry(fi, owner));
    panicked := db.SetFileLocked(ex, None, owner, false);
  }

  lemma OnlyFile(m: Index, ex: Path, e: Entry)
    requires m == map[][ex := e] && ex != []
    ensures ex in m && !Crowded(m, ex)
  {
  }
}
