/** database_bolt.go: nested buckets for the tree, one bucket per owner with the paths it
    published, and one NUL-separated list of owners per hash. The nested bucket "files" is kept as
    the map from each bucket's path to its keys; a bucket handle is such a path. */
module Bolt {
  import opened Paths
  import opened FileIndex
  import opened DirTree

  // ---------------------------------------------------------------------------------------
  // The operations of a nested bucket that are used; None is an error
  // ---------------------------------------------------------------------------------------

  function CreateBucket(s: Store, b: Path, n: string): Option<Store>
    requires b in s
  {
    if n in s[b].dirs || n in s[b].files then None else Some(AddDir(s, b, n))
  }

  function Put(s: Store, b: Path, n: string, fi: FileInfo): Option<Store>
    requires b in s
  {
    if n in s[b].dirs then None else Some(PutFile(s, b, n, fi))
  }

  /** A missing key and a nested bucket both give nil. */
  function Get(s: Store, b: Path, n: string): Option<FileInfo>
    requires b in s
  {
    if n in s[b].files then Some(s[b].files[n]) else None
  }

  function Delete(s: Store, b: Path, n: string): Option<Store>
    requires b in s
  {
    if n in s[b].dirs then None else Some(DropFile(s, b, n))
  }

  /** Everything nested in the bucket goes with it. */
  function DeleteBucket(s: Store, b: Path, n: string): Option<Store>
    requires b in s
  {
    if n !in s[b].dirs then None
    else
      var kept := map p | p in s && !(Child(b, n) <= p) :: s[p];
      Some(kept[b := s[b].(dirs := s[b].dirs - {n})])
  }

  lemma DeleteEmptyBucket(s: Store, b: Path, n: string)
    requires Linked(s) && b in s && n in s[b].dirs && s[Child(b, n)].Empty()
    ensures DeleteBucket(s, b, n) == Some(DropDir(s, b, n))
  {
    forall p | p in s && Child(b, n) <= p ensures p == Child(b, n) {
      if Child(b, n) != p {
        NextStep(Child(b, n), p);
        AncestorsStored(s, p, Child(Child(b, n), p[|b| + 1]));
      }
    }
    assert DeleteBucket(s, b, n).value == DropDir(s, b, n);
  }

  // ---------------------------------------------------------------------------------------
  // The bucket "files"
  // ---------------------------------------------------------------------------------------

  datatype Outcome = Committed | Failed | Panicked

  /** No path is both a file and a directory. */
  ghost predicate NoClash(m: Index) {
    forall p, q :: p in m && q in m ==> !(p < q)
  }

  ghost predicate UnderFile(m: Index, ex: Path) {
    exists q :: q in m && q < ex
  }

  lemma ListedOnce(s: Store, m: Index, d: Path, n: string)
    requires Implements(s, m) && NoClash(m) && d in s
    ensures !(n in s[d].dirs && n in s[d].files)
  {
    if n in s[d].dirs {
      StoredDirs(s, m, Child(d, n));
    }
  }

  lemma OpenOrMake(s: Store, m: Index, b: Path, n: string)
    requires Implements(s, m) && NoClash(m)
    ensures var r := MakeDirs(s, b);
      && (n in r[b].dirs ==> MakeDirs(s, Child(b, n)) == r && Child(b, n) !in m)
      && (n in r[b].files <==> Child(b, n) in m)
      && (n !in r[b].dirs ==> MakeDirs(s, Child(b, n)) == AddDir(r, b, n))
  {
    var r := MakeDirs(s, b);
    MakeDirsKeeps(s, m, b);
    assert |Child(b, n)| == |b| + 1;
    if n in r[b].dirs {
      assert Child(b, n) in s;
      AncestorsStored(s, Child(b, n), b);
      StoredDirs(s, m, Child(b, n));
    } else {
      assert Child(b, n) !in s;
    }
  }

  /** Lines 114-120: one bucket is opened, or made. */
  method OpenBucket(ghost s: Store, ghost m: Index, r: Store, b: Path, dn: string) returns (r': Option<Store>)
    requires Implements(s, m) && NoClash(m) && r == MakeDirs(s, b)
    ensures r'.None? <==> Child(b, dn) in m
    ensures r'.Some? ==> r'.value == MakeDirs(s, Child(b, dn))
  {
    OpenOrMake(s, m, b, dn);
    if dn in r[b].dirs {
      r' := Some(r);
    } else {
      r' := CreateBucket(r, b, dn);
    }
  }

  /** No file lies at d or above it. */
  ghost predicate Clear(m: Index, d: Path) {
    forall q :: q in m ==> !(q <= d)
  }

  lemma ClearChild(m: Index, b: Path, n: string)
    requires Clear(m, b)
    ensures Clear(m, Child(b, n)) <==> Child(b, n) !in m
  {
    forall q | q in m && q <= Child(b, n) ensures q == Child(b, n) {
      assert q == Child(b, n) || q <= b;
    }
  }

  lemma ClearAbove(m: Index, ex: Path)
    requires ex != []
    ensures Clear(m, Init(ex)) <==> !UnderFile(m, ex)
  {
  }

  /** Lines 107-123: the buckets on the way to the file. */
  method Descend(s: Store, ghost m: Index, ex: Path) returns (ok: bool, r: Store, parents: seq<Path>)
    requires Implements(s, m) && NoClash(m) && ex != []
    ensures ok <==> !UnderFile(m, ex)
    ensures ok ==> r == MakeDirs(s, Init(ex))
    ensures ok ==> parents == Ancestors(Init(ex))
  {
    r := s;
    parents := [];
    var b: Path := [];
    var i := 0;
    while i < |ex| - 1
      invariant 0 <= i <= |ex| - 1 && b == ex[..i] && r == MakeDirs(s, b) && parents == Ancestors(b)
      invariant Clear(m, b)
    {
      parents := parents + [b];
      PrefixIsChild(ex, i);
      ClearChild(m, b, ex[i]);
      var bucket := OpenBucket(s, m, r, b, ex[i]);
      if bucket.None? {
        assert ex[..i + 1] < ex;
        return false, s, [];
      }
      r := bucket.value;
      b := Child(b, ex[i]);
      i := i + 1;
    }
    ok := true;
    ClearAbove(m, ex);
  }

  /** The buckets above d, the root first. */
  function Ancestors(d: Path): (r: seq<Path>)
    ensures |r| == |d|
    decreases |d|
  {
    if d == [] then [] else Ancestors(Init(d)) + [Init(d)]
  }

  /** Lines 133-142: the buckets that are now empty are removed, from d upward. */
  method PruneUpward(s: Store, d: Path, stack: seq<Path>) returns (r: Option<Store>)
    requires Linked(s) && d in s && stack == Ancestors(d)
    ensures r == Some(Prune(s, d))
  {
    var files, b, parents := s, d, stack;
    while files[b].Empty() && |parents| > 0
      invariant Linked(files) && b in files && parents == Ancestors(b)
      invariant Prune(files, b) == Prune(s, d)
      decreases |parents|
    {
      var pb, bname := parents[|parents| - 1], b[|parents| - 1];
      IsChild(b);
      assert pb == Init(b) && bname == Last(b);
      DeleteEmptyBucket(files, pb, bname);
      DropDirLinked(files, pb, bname);
      var deleted := DeleteBucket(files, pb, bname);
      if deleted.None? {
        return None;
      }
      files := deleted.value;
      b := pb;
      parents := parents[..|parents| - 1];
    }
    r := Some(files);
  }

  /** A put is refused when the path is a directory or leads through a file. */
  ghost predicate Clashes(m: Index, ex: Path) {
    UnderFile(m, ex) || IsDir(m, ex)
  }

  lemma NoClashKept(m: Index, ex: Path, fi: Option<FileInfo>, owner: string)
    requires NoClash(m) && ex != [] && (fi.Some? ==> !Clashes(m, ex))
    ensures NoClash(Apply(m, ex, fi, owner))
  {
  }

  lemma TargetIsDir(s: Store, m: Index, ex: Path)
    requires Implements(s, m) && ex != []
    ensures Last(ex) in MakeDirs(s, Init(ex))[Init(ex)].dirs <==> IsDir(m, ex)
  {
    IsChild(ex);
    MakeDirsKeeps(s, m, Init(ex));
    StoredDirs(s, m, ex);
  }

  /** Lines 106-149 on the bucket "files", and the hash whose owners change. A name clash is an
      error; deleting a path that is not stored panics when the missing info is decoded. */
  method UpdateFiles(s: Store, ghost m: Index, ex: Path, fi: Option<FileInfo>, ghost owner: string)
    returns (out: Outcome, r: Store, hash: string)
    requires Implements(s, m) && NoClash(m) && ex != []
    ensures fi.Some? ==> out == if Clashes(m, ex) then Failed else Committed
    ensures fi.None? ==> out == if UnderFile(m, ex) then Failed else if ex !in m then Panicked else Committed
    ensures out.Committed? ==> Implements(r, Apply(m, ex, fi, owner)) && NoClash(Apply(m, ex, fi, owner))
    ensures out.Committed? ==> hash == if fi.Some? then fi.value.hash else m[ex].info.hash
  {
    var ok, files, parents := Descend(s, m, ex);
    if !ok {
      return Failed, s, "";
    }
    var b, fn := Init(ex), Last(ex);
    TargetIsDir(s, m, ex);
    MakeDirsKeeps(s, m, b);
    FileAt(files, m, ex);
    if fi.None? {
      var oldFi := Get(files, b, fn);
      if oldFi.None? {
        return Panicked, s, "";
      }
      DeleteRefines(s, m, ex, owner);
      ListedOnce(s, m, b, fn);
      DropFileLinked(s, b, fn);
      var deleted := Delete(files, b, fn);
      if deleted.None? {
        return Failed, s, "";
      }
      var pruned := PruneUpward(deleted.value, b, parents);
      if pruned.None? {
        return Failed, s, "";
      }
      NoClashKept(m, ex, fi, owner);
      return Committed, pruned.value, oldFi.value.hash;
    } else {
      var put := Put(files, b, fn, fi.value);
      if put.None? {
        return Failed, s, "";
      }
      PutRefines(s, m, ex, fi.value, owner);
      NoClashKept(m, ex, fi, owner);
      return Committed, put.value, fi.value.hash;
    }
  }

  // ---------------------------------------------------------------------------------------
  // The bucket "byHash": a NUL-separated list of owners per hash
  // ---------------------------------------------------------------------------------------

  const NUL := '\0'

  predicate ValidIdent(o: string) {
    o != "" && Free(o, NUL)
  }

  type HashLists = map<string, string>

  function Value(l: HashLists, h: string): string {
    if h in l then l[h] else ""
  }

  function OwnerList(v: string): seq<string> {
    if v == "" then [] else Split(v, NUL)
  }

  ghost predicate WellFormedLists(l: HashLists) {
    && "" !in l
    && forall h, o :: h in l && o in OwnerList(l[h]) ==> ValidIdent(o)
  }

  /** The owners that byHash names for h. */
  ghost function Listed(l: HashLists, h: string): set<string> {
    set o | o in OwnerList(Value(l, h))
  }

  /** Lines 165-172. */
  function AddOwner(v: string, owner: string): string {
    if |v| == 0 then owner else v + [NUL] + owner
  }

  lemma AddOwnerAppends(v: string, owner: string)
    requires ValidIdent(owner)
    ensures OwnerList(AddOwner(v, owner)) == OwnerList(v) + [owner]
    ensures AddOwner(v, owner) == if v == "" then owner else v + "\0" + owner
  {
    if v == "" {
      SplitFree(owner, NUL);
    } else {
      SplitSuffix(v, owner, NUL);
    }
  }

  /** A list without repeats stays so exactly when the owner was not on it. */
  lemma AddOwnerRepeatsIff(v: string, owner: string)
    requires ValidIdent(owner) && NoRepeats(OwnerList(v))
    ensures NoRepeats(OwnerList(AddOwner(v, owner))) <==> owner !in OwnerList(v)
  {
    AddOwnerAppends(v, owner);
    var list := OwnerList(v);
    if owner in list {
      var i :| 0 <= i < |list| && list[i] == owner;
      assert (list + [owner])[i] == (list + [owner])[|list|];
    }
  }

  function Others(l: seq<string>, owner: string): (r: seq<string>)
    ensures forall o :: o in r <==> o in l && o != owner
  {
    if l == [] then []
    else if l[|l| - 1] == owner then Others(l[..|l| - 1], owner)
    else Others(l[..|l| - 1], owner) + [l[|l| - 1]]
  }

  /** The others keep their order and number. */
  lemma {:induction false} OthersInOrder(a: seq<string>, b: seq<string>, owner: string)
    ensures Others(a + b, owner) == Others(a, owner) + Others(b, owner)
  {
    if b == [] {
      assert a + b == a;
    } else {
      OthersInOrder(a, b[..|b| - 1], owner);
      assert (a + b)[..|a + b| - 1] == a + b[..|b| - 1];
    }
  }

  lemma OthersOfOne(o: string, owner: string)
    ensures Others([o], owner) == if o == owner then [] else [o]
  {
    assert [o][..0] == [];
  }

  /** Lines 156-163: every occurrence of the owner goes. */
  method DropOwner(v: string, owner: string) returns (r: string)
    ensures r == Join(Others(OwnerList(v), owner), NUL)
  {
    r := v;
    if |v| > 0 {
      var list := Split(v, NUL);
      var newOwners: seq<string> := [];
      for i := 0 to |list|
        invariant newOwners == Others(list[..i], owner)
      {
        assert list[..i + 1][..i] == list[..i];
        if list[i] != owner {
          newOwners := newOwners + [list[i]];
        }
      }
      assert list[..|list|] == list;
      r := Join(newOwners, NUL);
    }
  }

  lemma JoinedOwners(list: seq<string>)
    requires forall o :: o in list ==> ValidIdent(o)
    ensures OwnerList(Join(list, NUL)) == list
  {
    if list != [] {
      assert AllFree(list, NUL) by { assert forall i :: 0 <= i < |list| ==> list[i] in list; }
      SplitOfJoin(list, NUL);
      assert list[0] in list;
    }
  }

  /** The owner left the list of h, or joined it; the other lists name the same owners. */
  ghost predicate ListsUpdated(l: HashLists, l': HashLists, h: string, deletion: bool, owner: string) {
    && (forall g :: g != h ==> Listed(l', g) == Listed(l, g))
    && Listed(l', h) == if deletion then Listed(l, h) - {owner} else Listed(l, h) + {owner}
  }

  /** The owner is added at the end of the list of h, though it may be on it, or all its occurrences go;
      the other lists stay as they are. */
  ghost predicate EntriesUpdated(l: HashLists, l': HashLists, h: string, deletion: bool, owner: string) {
    var before := OwnerList(Value(l, h));
    && (forall g :: g != h ==> OwnerList(Value(l', g)) == OwnerList(Value(l, g)))
    && OwnerList(Value(l', h)) == if deletion then Others(before, owner) else before + [owner]
  }

  lemma EntriesGiveLists(l: HashLists, l': HashLists, h: string, deletion: bool, owner: string)
    requires EntriesUpdated(l, l', h, deletion, owner)
    ensures ListsUpdated(l, l', h, deletion, owner)
  {
    forall g | g != h ensures Listed(l', g) == Listed(l, g) {
      assert OwnerList(Value(l', g)) == OwnerList(Value(l, g));
    }
  }

  /** Lines 153-172. */
  method NewOwners(v: string, deletion: bool, owner: string) returns (r: string)
    requires ValidIdent(owner) && forall o :: o in OwnerList(v) ==> ValidIdent(o)
    ensures OwnerList(r) == if deletion then Others(OwnerList(v), owner) else OwnerList(v) + [owner]
  {
    if deletion {
      r := DropOwner(v, owner);
      JoinedOwners(Others(OwnerList(v), owner));
    } else {
      AddOwnerAppends(v, owner);
      r := AddOwner(v, owner);
    }
  }

  /** What lines 151-184 do to the lists. */
  method UpdateByHash(l: HashLists, h: string, deletion: bool, owner: string) returns (r: Option<HashLists>)
    requires WellFormedLists(l) && ValidIdent(owner)
    ensures r.None? <==> h == "" && !deletion
    ensures r.Some? ==> WellFormedLists(r.value) && EntriesUpdated(l, r.value, h, deletion, owner)
    ensures r.Some? ==> ListsUpdated(l, r.value, h, deletion, owner)
  {
    var owners := NewOwners(Value(l, h), deletion, owner);
    if |owners| == 0 {
      r := Some(l - {h});
    } else if h == "" {
      r := None;
    } else {
      r := Some(l[h := owners]);
    }
    if r.Some? {
      EntriesGiveLists(l, r.value, h, deletion, owner);
    }
  }

  /** Each list names exactly the peers that publish the hash. */
  ghost predicate HashesExact(l: HashLists, m: Index) {
    forall h :: Listed(l, h) == OwnersOf(m, h)
  }

  /** No list names a peer that does not publish the hash. */
  ghost predicate NoneStale(l: HashLists, m: Index) {
    forall h :: Listed(l, h) <= OwnersOf(m, h)
  }

  /** The peer that publishes ex has the same content under another path too. */
  ghost predicate Shares(m: Index, ex: Path)
    requires ex in m
  {
    exists q :: q in m && q != ex && m[q].info.hash == m[ex].info.hash && m[q].owner == m[ex].owner
  }

  /** The condition under which the code as written keeps byHash exact. */
  ghost predicate KeepsHashes(m: Index, ex: Path, fi: Option<FileInfo>, owner: string) {
    ex in m ==>
      var h, publisher := m[ex].info.hash, m[ex].owner;
      if fi.Some? then Shares(m, ex) || (fi.value.hash == h && owner == publisher)
      else if owner == publisher then !Shares(m, ex)
      else Shares(m, ex) && owner !in OwnersOf(m, h)
  }

  lemma OwnersWithout(m: Index, ex: Path, h: string)
    requires ex in m
    ensures OwnersOf(m - {ex}, h) ==
      if h == m[ex].info.hash && !Shares(m, ex) then OwnersOf(m, h) - {m[ex].owner} else OwnersOf(m, h)
  {
    forall o | o in OwnersOf(m, h) ensures o in OwnersOf(m - {ex}, h) || (o == m[ex].owner && h == m[ex].info.hash) {
      var q :| q in m && m[q].info.hash == h && m[q].owner == o;
      assert q == ex || q in m - {ex};
    }
    if h == m[ex].info.hash && Shares(m, ex) {
      var q :| q in m && q != ex && m[q].info.hash == h && m[q].owner == m[ex].owner;
      assert q in m - {ex};
    }
  }

  lemma OwnersWith(m: Index, ex: Path, e: Entry, h: string)
    ensures OwnersOf(m[ex := e], h) == OwnersOf(m - {ex}, h) + if h == e.info.hash then {e.owner} else {}
  {
    var m' := m[ex := e];
    forall o | o in OwnersOf(m - {ex}, h) ensures o in OwnersOf(m', h) {
      var q :| q in m - {ex} && m[q].info.hash == h && m[q].owner == o;
      assert q in m' && m'[q] == m[q];
    }
    forall o | o in OwnersOf(m', h) && o !in OwnersOf(m - {ex}, h) ensures h == e.info.hash && o == e.owner {
      var q :| q in m' && m'[q].info.hash == h && m'[q].owner == o;
      assert q == ex || q in m - {ex};
    }
    if h == e.info.hash {
      assert m'[ex].owner in OwnersOf(m', h);
    }
  }

  lemma OwnersAfter(m: Index, ex: Path, fi: Option<FileInfo>, owner: string, h: string)
    ensures OwnersOf(Apply(m, ex, fi, owner), h) ==
      (if ex in m && h == m[ex].info.hash && !Shares(m, ex) then OwnersOf(m, h) - {m[ex].owner} else OwnersOf(m, h))
      + (if fi.Some? && h == fi.value.hash then {owner} else {})
  {
    if ex in m { OwnersWithout(m, ex, h); } else { assert m - {ex} == m; }
    if fi.Some? { OwnersWith(m, ex, Entry(fi.value, owner), h); }
  }

  /** The hash whose list changes. */
  ghost function HashOf(m: Index, ex: Path, fi: Option<FileInfo>): string
    requires fi.None? ==> ex in m
  {
    if fi.Some? then fi.value.hash else m[ex].info.hash
  }

  lemma HashExactIff(l: HashLists, l': HashLists, m: Index, ex: Path, fi: Option<FileInfo>, owner: string, h: string)
    requires HashesExact(l, m) && (fi.None? ==> ex in m)
    requires ListsUpdated(l, l', HashOf(m, ex, fi), fi.None?, owner)
    ensures ex !in m || h != m[ex].info.hash ==> Listed(l', h) == OwnersOf(Apply(m, ex, fi, owner), h)
    ensures ex in m && h == m[ex].info.hash ==>
      (Listed(l', h) == OwnersOf(Apply(m, ex, fi, owner), h) <==> KeepsHashes(m, ex, fi, owner))
  {
    OwnersAfter(m, ex, fi, owner, h);
    assert Listed(l, h) == OwnersOf(m, h);
    if ex in m && h == m[ex].info.hash {
      var publisher, after := m[ex].owner, OwnersOf(Apply(m, ex, fi, owner), h);
      assert publisher in OwnersOf(m, h);
      assert publisher in after <==> Shares(m, ex) || (fi.Some? && fi.value.hash == h && owner == publisher);
    }
  }

  /** byHash stays exact exactly when a put finds another file of the publisher with the old hash, or
      keeps hash and publisher, and a delete by the publisher finds none; a delete by another peer
      must find one, and that peer must not be listed. */
  lemma HashesStayExactIff(l: HashLists, l': HashLists, m: Index, ex: Path, fi: Option<FileInfo>, owner: string)
    requires HashesExact(l, m) && (fi.None? ==> ex in m)
    requires ListsUpdated(l, l', HashOf(m, ex, fi), fi.None?, owner)
    ensures HashesExact(l', Apply(m, ex, fi, owner)) <==> KeepsHashes(m, ex, fi, owner)
  {
    forall h
      ensures ex !in m || h != m[ex].info.hash ==> Listed(l', h) == OwnersOf(Apply(m, ex, fi, owner), h)
      ensures ex in m && h == m[ex].info.hash ==>
        (Listed(l', h) == OwnersOf(Apply(m, ex, fi, owner), h) <==> KeepsHashes(m, ex, fi, owner))
    {
      HashExactIff(l, l', m, ex, fi, owner, h);
    }
    if ex in m {
      var h := m[ex].info.hash;
      assert Listed(l', h) == OwnersOf(Apply(m, ex, fi, owner), h) <==> KeepsHashes(m, ex, fi, owner);
    }
  }

  /** A file put again under a new hash leaves its owner on the old hash's list. */
  lemma ReputLeavesStaleOwner(l: HashLists, l': HashLists, ex: Path, before: FileInfo, after: FileInfo, owner: string)
    requires HashesExact(l, map[ex := Entry(before, owner)]) && before.hash != after.hash
    requires ListsUpdated(l, l', after.hash, false, owner)
    ensures owner in Listed(l', before.hash)
    ensures OwnersOf(Apply(map[ex := Entry(before, owner)], ex, Some(after), owner), before.hash) == {}
  {
    var m := map[ex := Entry(before, owner)];
    assert ex in m && m[ex].owner in OwnersOf(m, before.hash) && Listed(l, before.hash) == OwnersOf(m, before.hash);
  }

  /** Of two files with one hash, deleting one takes the owner off the list. */
  lemma SharedHashIsForgotten(l: HashLists, l': HashLists, p: Path, q: Path, info: FileInfo, owner: string)
    requires p != q && HashesExact(l, map[p := Entry(info, owner), q := Entry(info, owner)])
    requires ListsUpdated(l, l', info.hash, true, owner)
    ensures Listed(l', info.hash) == {}
    ensures OwnersOf(Apply(map[p := Entry(info, owner), q := Entry(info, owner)], p, None, owner), info.hash) == {owner}
  {
    var m := map[p := Entry(info, owner), q := Entry(info, owner)];
    assert m[p].owner in OwnersOf(m, info.hash) && Listed(l, info.hash) == OwnersOf(m, info.hash);
    assert Listed(l, info.hash) == {owner};
    assert q in m - {p} && (m - {p})[q].owner in OwnersOf(m - {p}, info.hash);
  }

  /** The publisher is not left on the old hash's list without a file of that hash. */
  ghost predicate LeavesNoneStale(l: HashLists, m: Index, ex: Path, fi: Option<FileInfo>, owner: string) {
    ex in m ==>
      var h, publisher := m[ex].info.hash, m[ex].owner;
      || Shares(m, ex) || publisher !in Listed(l, h)
      || (owner == publisher && (fi.None? || fi.value.hash == h))
  }

  /** Without stale owners before, a put or delete leaves none exactly when the old file's publisher
      has another file of its hash, was not listed, or itself deletes the file or keeps its hash. */
  lemma NoneStaleKeptIff(l: HashLists, l': HashLists, m: Index, ex: Path, fi: Option<FileInfo>, owner: string)
    requires NoneStale(l, m) && (fi.None? ==> ex in m)
    requires ListsUpdated(l, l', HashOf(m, ex, fi), fi.None?, owner)
    ensures NoneStale(l', Apply(m, ex, fi, owner)) <==> LeavesNoneStale(l, m, ex, fi, owner)
  {
    var m' := Apply(m, ex, fi, owner);
    forall h ensures OwnersOf(m', h) ==
      (if ex in m && h == m[ex].info.hash && !Shares(m, ex) then OwnersOf(m, h) - {m[ex].owner} else OwnersOf(m, h))
      + (if fi.Some? && h == fi.value.hash then {owner} else {})
    {
      OwnersAfter(m, ex, fi, owner, h);
    }
    if LeavesNoneStale(l, m, ex, fi, owner) {
      forall h ensures Listed(l', h) <= OwnersOf(m', h) {
        assert Listed(l, h) <= OwnersOf(m, h);
      }
    } else {
      var h := m[ex].info.hash;
      assert m[ex].owner in Listed(l', h) && m[ex].owner !in OwnersOf(m', h);
    }
  }

  // ---------------------------------------------------------------------------------------
  // The bucket "byOwner"
  // ---------------------------------------------------------------------------------------

  type OwnerFiles = map<string, set<string>>

  function FilesOf(b: OwnerFiles, o: string): set<string> {
    if o in b then b[o] else {}
  }

  ghost predicate ValidIndex(m: Index) {
    forall p :: p in m ==> ValidPath(p) && ValidIdent(m[p].owner) && m[p].info.hash != ""
  }

  /** byOwner holds, joined with '/', exactly the paths each peer publishes. */
  ghost predicate OwnersExact(b: OwnerFiles, m: Index) {
    forall o, fn :: fn in FilesOf(b, o) <==> PathOf(fn) in m && m[PathOf(fn)].owner == o
  }

  /** The name of ex joined the owner's bucket or left it, and nothing else moved. */
  ghost predicate ClaimsUpdated(b: OwnerFiles, b': OwnerFiles, ex: Path, deletion: bool, owner: string) {
    forall o, fn :: fn in FilesOf(b', o) <==>
      if o == owner && fn == DirName(ex) then !deletion else fn in FilesOf(b, o)
  }

  /** Lines 86-104. */
  method UpdateByOwner(b: OwnerFiles, ex: Path, fi: Option<FileInfo>, owner: string) returns (r: OwnerFiles)
    ensures ClaimsUpdated(b, r, ex, fi.None?, owner)
  {
    var fn := DirName(ex);
    r := b;
    if fi.Some? {
      r := r[owner := FilesOf(r, owner) + {fn}];
    } else if owner in r {
      r := r[owner := r[owner] - {fn}];
    }
  }

  lemma ClaimIs(b: OwnerFiles, m: Index, p: Path, o: string)
    requires OwnersExact(b, m) && ValidPath(p)
    ensures DirName(p) in FilesOf(b, o) <==> p in m && m[p].owner == o
  {
    PathOfDirName(p);
  }

  /** byOwner stays exact exactly when the path is new or was published by the caller. */
  lemma OwnersStayExactIff(b: OwnerFiles, b': OwnerFiles, m: Index, ex: Path, fi: Option<FileInfo>, owner: string)
    requires OwnersExact(b, m) && ValidPath(ex) && ClaimsUpdated(b, b', ex, fi.None?, owner)
    ensures OwnersExact(b', Apply(m, ex, fi, owner)) <==> OneOwner(m, ex, owner)
  {
    var m' := Apply(m, ex, fi, owner);
    PathOfDirName(ex);
    if OneOwner(m, ex, owner) {
      forall o, g ensures g in FilesOf(b', o) <==> PathOf(g) in m' && m'[PathOf(g)].owner == o {
        DirNameOfPathOf(g);
        assert g in FilesOf(b, o) <==> PathOf(g) in m && m[PathOf(g)].owner == o;
      }
    } else {
      ClaimIs(b, m, ex, m[ex].owner);
      assert DirName(ex) in FilesOf(b', m[ex].owner);
    }
  }

  // ---------------------------------------------------------------------------------------
  // The database
  // ---------------------------------------------------------------------------------------

  /** Only names of valid paths are claimed. */
  ghost predicate ValidClaims(b: OwnerFiles) {
    forall o, fn :: fn in FilesOf(b, o) ==> ValidPath(PathOf(fn))
  }

  ghost predicate Consistent(s: Store, b: OwnerFiles, l: HashLists, m: Index) {
    Implements(s, m) && NoClash(m) && ValidIndex(m) && ValidClaims(b) && WellFormedLists(l)
  }

  lemma ClaimsStayValid(b: OwnerFiles, b': OwnerFiles, ex: Path, deletion: bool, owner: string)
    requires ValidClaims(b) && ValidPath(ex) && ClaimsUpdated(b, b', ex, deletion, owner)
    ensures ValidClaims(b')
  {
    PathOfDirName(ex);
  }

  /** How SetFile ends: a name clash and an empty hash are errors, and deleting a path that is not
      stored panics. */
  ghost function Ending(m: Index, ex: Path, fi: Option<FileInfo>): Outcome {
    match fi
    case Some(i) => if Clashes(m, ex) || i.hash == "" then Failed else Committed
    case None => if UnderFile(m, ex) then Failed else if ex !in m then Panicked else Committed
  }

  lemma EndingIs(m: Index, ex: Path, fi: Option<FileInfo>)
    requires ex != []
    ensures Ending(m, ex, fi).Panicked? <==> fi.None? && ex !in m && forall q :: q in m ==> !(q < ex)
    ensures Ending(m, ex, fi).Committed? <==>
      && (forall q :: q in m ==> !(q < ex))
      && (if fi.None? then ex in m else fi.value.hash != "" && forall q :: q in m ==> !(ex < q))
  {
  }

  lemma ValidIndexKept(m: Index, ex: Path, fi: Option<FileInfo>, owner: string)
    requires ValidIndex(m) && ValidPath(ex) && ValidIdent(owner) && (fi.Some? ==> fi.value.hash != "")
    ensures ValidIndex(Apply(m, ex, fi, owner))
  {
  }

  /** The body of the transaction. */
  method Transact(s: Store, b: OwnerFiles, l: HashLists, ghost m: Index, ex: Path, fi: Option<FileInfo>, owner: string)
    returns (out: Outcome, s': Store, b': OwnerFiles, l': HashLists)
    requires Consistent(s, b, l, m) && ValidPath(ex) && ValidIdent(owner)
    ensures out == Ending(m, ex, fi)
    ensures out == Committed ==>
      && Consistent(s', b', l', Apply(m, ex, fi, owner)) && ClaimsUpdated(b, b', ex, fi.None?, owner)
      && ListsUpdated(l, l', HashOf(m, ex, fi), fi.None?, owner)
      && EntriesUpdated(l, l', HashOf(m, ex, fi), fi.None?, owner)
  {
    s', b', l' := s, b, l;
    b' := UpdateByOwner(b, ex, fi, owner);
    ClaimsStayValid(b, b', ex, fi.None?, owner);
    var hash;
    out, s', hash := UpdateFiles(s, m, ex, fi, owner);
    if out == Committed {
      var lists := UpdateByHash(l, hash, fi.None?, owner);
      if lists.None? {
        out := Failed;
      } else {
        l' := lists.value;
        ValidIndexKept(m, ex, fi, owner);
      }
    }
  }

  // ---------------------------------------------------------------------------------------
  // A peer's departure
  // ---------------------------------------------------------------------------------------

  /** The paths that the owner's bucket names. */
  ghost function PathsOf(names: set<string>): set<Path> {
    set fn | fn in names :: PathOf(fn)
  }

  /** No file that the peer does not claim lies above p. */
  ghost predicate Exposed(m: Index, claims: set<Path>, p: Path) {
    forall q :: q in m && q < p ==> q in claims
  }

  /** The peer claims a path that is not stored, and no other peer's file lies above it. */
  ghost predicate Dangles(m: Index, claims: set<Path>) {
    exists p :: p in claims && p !in m && Exposed(m, claims, p)
  }

  /** Half way, with the paths of `rest` still to come, in an order in which a path comes before those
      below it: of the paths that had their turn, those stored are gone, and the others failed. */
  ghost predicate Departing(m: Index, m': Index, claims: set<Path>, rest: set<Path>, failed: bool) {
    && rest <= claims && m' == m - (claims - rest)
    && (forall p, q :: p in rest && q in claims && p < q ==> q in rest)
    && (forall p :: p in claims - rest && p !in m ==> !Exposed(m, claims, p))
    && (failed <==> exists p :: p in claims - rest && p !in m)
  }

  lemma OneNameLess(names: set<string>, fn: string)
    requires fn in names
    ensures PathsOf(names - {fn}) == PathsOf(names) - {PathOf(fn)}
  {
    DirNameOfPathOf(fn);
    forall g | g in names && PathOf(g) == PathOf(fn) ensures g == fn {
      DirNameOfPathOf(g);
    }
    forall g | g in names && g != fn ensures PathOf(g) in PathsOf(names - {fn}) {
      assert g in names - {fn};
    }
  }

  /** Some name comes before all names of paths below it, as it does in the order of the keys. */
  method NextName(names: set<string>) returns (fn: string)
    requires names != {}
    ensures fn in names && forall g :: g in names ==> !(PathOf(g) < PathOf(fn))
  {
    fn :| fn in names;
    var rest := names - {fn};
    while rest != {}
      invariant fn in names && rest <= names
      invariant forall g :: g in names - rest ==> |PathOf(fn)| <= |PathOf(g)|
      decreases rest
    {
      var g :| g in rest;
      if |PathOf(g)| < |PathOf(fn)| {
        fn := g;
      }
      rest := rest - {g};
    }
  }

  /** What one turn of the loop meets: the path is deleted if it was stored, and if not the deletion
      panics exactly when every file above the path is claimed too. */
  lemma TurnEnds(m: Index, m': Index, claims: set<Path>, rest: set<Path>, failed: bool, p: Path)
    requires Departing(m, m', claims, rest, failed) && p in rest && NoClash(m')
    requires forall q :: q in rest ==> !(q < p)
    ensures Ending(m', p, None) ==
      if p in m then Committed else if Exposed(m, claims, p) then Panicked else Failed
  {
    if p in m {
      assert p in m' && !UnderFile(m', p);
    } else if Exposed(m, claims, p) {
      forall q | q in m' ensures !(q < p) {
        assert q < p ==> q !in rest;
      }
    } else {
      var q :| q in m && q < p && q !in claims;
      assert q in m';
    }
  }

  lemma TurnGoesOn(m: Index, m': Index, claims: set<Path>, rest: set<Path>, failed: bool, p: Path)
    requires Departing(m, m', claims, rest, failed) && p in rest
    requires forall q :: q in rest ==> !(q < p)
    requires p in m || !Exposed(m, claims, p)
    ensures Departing(m, m' - {p}, claims, rest - {p}, failed || p !in m)
  {
    assert claims - (rest - {p}) == (claims - rest) + {p};
    if failed {
      var q :| q in claims - rest && q !in m;
      assert q in claims - (rest - {p});
    }
    if p !in m {
      assert p in claims - (rest - {p});
    }
  }

  /** The peer's bucket half way: what was stored is no longer claimed. */
  ghost predicate ClaimsLeft(b: OwnerFiles, b': OwnerFiles, m: Index, owner: string, todo: set<string>) {
    && (forall o, fn :: o != owner ==> (fn in FilesOf(b', o) <==> fn in FilesOf(b, o)))
    && (forall fn :: fn in FilesOf(b', owner) <==> fn in FilesOf(b, owner) && (fn in todo || PathOf(fn) !in m))
  }

  lemma TurnDropsClaim(b: OwnerFiles, b': OwnerFiles, b'': OwnerFiles, m: Index, owner: string,
                       todo: set<string>, fn: string)
    requires ClaimsLeft(b, b', m, owner, todo) && fn in todo
    requires if PathOf(fn) in m then ClaimsUpdated(b', b'', PathOf(fn), true, owner) else b'' == b'
    ensures ClaimsLeft(b, b'', m, owner, todo - {fn})
  {
    DirNameOfPathOf(fn);
  }

  /** Of the lists of h, the peer leaves those of the hashes it loses a file of. */
  ghost predicate LeftLists(l: HashLists, l': HashLists, m: Index, gone: set<Path>, owner: string) {
    forall h :: Listed(l', h) == if Loses(m, gone, h) then Listed(l, h) - {owner} else Listed(l, h)
  }

  ghost predicate Loses(m: Index, gone: set<Path>, h: string) {
    exists p :: p in gone && p in m && m[p].info.hash == h
  }

  lemma LeavesOneMore(l: HashLists, l': HashLists, l'': HashLists, m: Index, gone: set<Path>, p: Path, owner: string)
    requires LeftLists(l, l', m, gone, owner) && p in m && ListsUpdated(l', l'', m[p].info.hash, true, owner)
    ensures LeftLists(l, l'', m, gone + {p}, owner)
  {
    forall h ensures Listed(l'', h) == if Loses(m, gone + {p}, h) then Listed(l, h) - {owner} else Listed(l, h) {
      assert Loses(m, gone + {p}, h) <==> Loses(m, gone, h) || h == m[p].info.hash by {
        if Loses(m, gone, h) {
          var q :| q in gone && q in m && m[q].info.hash == h;
          assert q in gone + {p};
        }
        if h == m[p].info.hash {
          assert p in gone + {p};
        }
      }
    }
  }

  lemma LeavesNoMore(l: HashLists, l': HashLists, m: Index, gone: set<Path>, p: Path, owner: string)
    requires LeftLists(l, l', m, gone, owner) && p !in m
    ensures LeftLists(l, l', m, gone + {p}, owner)
  {
    forall h ensures Loses(m, gone + {p}, h) <==> Loses(m, gone, h) {
      if Loses(m, gone, h) {
        var q :| q in gone && q in m && m[q].info.hash == h;
        assert q in gone + {p};
      }
    }
  }

  /** The flat map without the peer's files. */
  ghost function Departed(m: Index, o: string): Index {
    map p | p in m && m[p].owner != o :: m[p]
  }

  /** With an exact byOwner the peer claims its own files, all of which are stored. */
  lemma ClaimsAreOwn(b: OwnerFiles, m: Index, o: string)
    requires OwnersExact(b, m) && ValidIndex(m)
    ensures forall p :: p in PathsOf(FilesOf(b, o)) <==> p in m && m[p].owner == o
    ensures m - PathsOf(FilesOf(b, o)) == Departed(m, o)
    ensures forall h :: Loses(m, PathsOf(FilesOf(b, o)), h) <==> o in OwnersOf(m, h)
  {
    var claims := PathsOf(FilesOf(b, o));
    forall p ensures p in claims <==> p in m && m[p].owner == o {
      if p in m && m[p].owner == o {
        PathOfDirName(p);
        assert DirName(p) in FilesOf(b, o);
      }
    }
    forall h ensures Loses(m, claims, h) <==> o in OwnersOf(m, h) {
      if o in OwnersOf(m, h) {
        var p :| p in m && m[p].info.hash == h && m[p].owner == o;
        assert p in claims;
      }
    }
  }

  lemma OwnersWithoutPeer(m: Index, o: string, h: string)
    ensures OwnersOf(Departed(m, o), h) == OwnersOf(m, h) - {o}
  {
    forall x | x in OwnersOf(m, h) && x != o ensures x in OwnersOf(Departed(m, o), h) {
      var p :| p in m && m[p].info.hash == h && m[p].owner == x;
      assert p in Departed(m, o);
    }
  }

  /** After a peer's own files are gone it is on no list exactly when it was on no list of a hash it
      did not publish, and exact lists are exact again, whatever the deletions did half way. */
  lemma DepartedLists(b: OwnerFiles, l: HashLists, l': HashLists, m: Index, o: string)
    requires OwnersExact(b, m) && ValidIndex(m) && LeftLists(l, l', m, PathsOf(FilesOf(b, o)), o)
    ensures forall h :: Listed(l', h) == if o in OwnersOf(m, h) then Listed(l, h) - {o} else Listed(l, h)
    ensures (forall h :: o !in Listed(l', h)) <==> (forall h :: o in Listed(l, h) ==> o in OwnersOf(m, h))
    ensures HashesExact(l, m) ==> HashesExact(l', Departed(m, o))
  {
    ClaimsAreOwn(b, m, o);
    forall h ensures Listed(l', h) == if o in OwnersOf(m, h) then Listed(l, h) - {o} else Listed(l, h) {
      assert Loses(m, PathsOf(FilesOf(b, o)), h) <==> o in OwnersOf(m, h);
    }
    if HashesExact(l, m) {
      forall h ensures Listed(l', h) == OwnersOf(Departed(m, o), h) {
        OwnersWithoutPeer(m, o, h);
        assert Listed(l, h) == OwnersOf(m, h);
      }
    }
  }

  lemma DepartedOwners(b: OwnerFiles, b': OwnerFiles, m: Index, o: string)
    requires OwnersExact(b, m) && ValidIndex(m) && FilesOf(b', o) == {}
    requires forall q :: q != o ==> FilesOf(b', q) == FilesOf(b, q)
    ensures OwnersExact(b', Departed(m, o))
  {
    var m' := Departed(m, o);
    forall q, fn ensures fn in FilesOf(b', q) <==> PathOf(fn) in m' && m'[PathOf(fn)].owner == q {
      assert fn in FilesOf(b, q) <==> PathOf(fn) in m && m[PathOf(fn)].owner == q;
    }
  }

  /** The state of the disconnect, which began with m, b and l, when the names in todo are left. */
  ghost predicate Halfway(b: OwnerFiles, l: HashLists, m: Index, owner: string, todo: set<string>, failed: bool,
                          m': Index, b': OwnerFiles, l': HashLists) {
    var claims, rest := PathsOf(FilesOf(b, owner)), PathsOf(todo);
    && todo <= FilesOf(b, owner) && Departing(m, m', claims, rest, failed)
    && LeftLists(l, l', m, claims - rest, owner) && ClaimsLeft(b, b', m, owner, todo)
  }

  lemma AtFirst(b: OwnerFiles, l: HashLists, m: Index, owner: string)
    ensures Halfway(b, l, m, owner, FilesOf(b, owner), false, m, b, l)
  {
    var claims := PathsOf(FilesOf(b, owner));
    assert claims - claims == {};
    assert m - {} == m;
  }

  lemma OneTurn(b: OwnerFiles, l: HashLists, m: Index, owner: string, todo: set<string>, failed: bool, fn: string,
                m': Index, b': OwnerFiles, l': HashLists, b'': OwnerFiles, l'': HashLists)
    requires Halfway(b, l, m, owner, todo, failed, m', b', l') && fn in todo
    requires forall g :: g in todo ==> !(PathOf(g) < PathOf(fn))
    requires var p := PathOf(fn);
      if p in m then ClaimsUpdated(b', b'', p, true, owner) && ListsUpdated(l', l'', m[p].info.hash, true, owner)
      else !Exposed(m, PathsOf(FilesOf(b, owner)), p) && b'' == b' && l'' == l'
    ensures Halfway(b, l, m, owner, todo - {fn}, failed || PathOf(fn) !in m, m' - {PathOf(fn)}, b'', l'')
  {
    var claims, rest, p := PathsOf(FilesOf(b, owner)), PathsOf(todo), PathOf(fn);
    assert p in rest;
    OneNameLess(todo, fn);
    TurnGoesOn(m, m', claims, rest, failed, p);
    TurnDropsClaim(b, b', b'', m, owner, todo, fn);
    assert claims - (rest - {p}) == (claims - rest) + {p};
    if p in m {
      LeavesOneMore(l, l', l'', m, claims - rest, p, owner);
    } else {
      LeavesNoMore(l, l', m, claims - rest, p, owner);
    }
  }

  /** How a disconnect ends, and what it leaves unless it panics. */
  ghost predicate Gone(b: OwnerFiles, l: HashLists, m: Index, owner: string, out: Outcome,
                       m': Index, b': OwnerFiles, l': HashLists) {
    var claims := PathsOf(FilesOf(b, owner));
    && (out == Committed <==> claims <= m.Keys) && (out == Panicked <==> Dangles(m, claims))
    && (forall p :: p in m' ==> p in m && m'[p] == m[p]) && (forall p :: p in m && p !in claims ==> p in m')
    && (forall o :: o != owner ==> FilesOf(b', o) == FilesOf(b, o))
    && (out != Panicked ==>
          && m' == m - claims && LeftLists(l, l', m, claims, owner)
          && FilesOf(b', owner) == set fn | fn in FilesOf(b, owner) && PathOf(fn) !in m)
  }

  lemma AtLast(b: OwnerFiles, l: HashLists, m: Index, owner: string, failed: bool,
               m': Index, b': OwnerFiles, l': HashLists)
    requires Halfway(b, l, m, owner, {}, failed, m', b', l')
    ensures Gone(b, l, m, owner, if failed then Failed else Committed, m', b', l')
  {
    var claims := PathsOf(FilesOf(b, owner));
    assert PathsOf({}) == {} && claims - {} == claims;
  }

  lemma PanicsInTheEnd(b: OwnerFiles, l: HashLists, m: Index, owner: string, todo: set<string>, failed: bool,
                       fn: string, m': Index, b': OwnerFiles, l': HashLists)
    requires Halfway(b, l, m, owner, todo, failed, m', b', l')
    requires fn in FilesOf(b, owner) && PathOf(fn) !in m && Exposed(m, PathsOf(FilesOf(b, owner)), PathOf(fn))
    ensures Gone(b, l, m, owner, Panicked, m', b', l')
  {
    assert PathOf(fn) in PathsOf(FilesOf(b, owner));
  }

  /** With an exact byOwner the peer's own files go, and nothing fails. */
  lemma OwnFilesGone(b: OwnerFiles, l: HashLists, m: Index, owner: string, out: Outcome,
                     m': Index, b': OwnerFiles, l': HashLists)
    requires OwnersExact(b, m) && ValidIndex(m) && Gone(b, l, m, owner, out, m', b', l')
    ensures out == Committed && m' == Departed(m, owner) && OwnersExact(b', m') && FilesOf(b', owner) == {}
    ensures forall h :: Listed(l', h) == if owner in OwnersOf(m, h) then Listed(l, h) - {owner} else Listed(l, h)
    ensures (forall h :: owner !in Listed(l', h)) <==> (forall h :: owner in Listed(l, h) ==> owner in OwnersOf(m, h))
    ensures HashesExact(l, m) ==> HashesExact(l', m')
  {
    ClaimsAreOwn(b, m, owner);
    DepartedLists(b, l, l', m, owner);
    forall fn | fn in FilesOf(b, owner) ensures PathOf(fn) in m {
      assert PathOf(fn) in PathsOf(FilesOf(b, owner));
    }
    DepartedOwners(b, b', m, owner);
  }

  /** Each secondary index stays exact under its own condition. */
  ghost predicate StayExactIff(b: OwnerFiles, b': OwnerFiles, l: HashLists, l': HashLists, m: Index, m': Index,
                               ex: Path, fi: Option<FileInfo>, owner: string) {
    && (OwnersExact(b, m) ==> (OwnersExact(b', m') <==> OneOwner(m, ex, owner)))
    && (HashesExact(l, m) ==> (HashesExact(l', m') <==> KeepsHashes(m, ex, fi, owner)))
  }

  lemma IndicesStayExactIff(b: OwnerFiles, b': OwnerFiles, l: HashLists, l': HashLists, m: Index,
                            ex: Path, fi: Option<FileInfo>, owner: string)
    requires ValidPath(ex) && (fi.None? ==> ex in m)
    requires ClaimsUpdated(b, b', ex, fi.None?, owner) && ListsUpdated(l, l', HashOf(m, ex, fi), fi.None?, owner)
    ensures StayExactIff(b, b', l, l', m, Apply(m, ex, fi, owner), ex, fi, owner)
  {
    if OwnersExact(b, m) {
      OwnersStayExactIff(b, b', m, ex, fi, owner);
    }
    if HashesExact(l, m) {
      HashesStayExactIff(l, l', m, ex, fi, owner);
    }
  }

  class Database {
    var files: Store
    var byOwner: OwnerFiles
    var byHash: HashLists
    /** The flat map that the bucket "files" implements. */
    ghost var index: Index

    constructor ()
      ensures Valid() && index == map[] && byOwner == map[] && byHash == map[]
      ensures OwnersExact(byOwner, index) && HashesExact(byHash, index)
    {
      files := map[[] := NO_ENTRIES];
      byOwner, byHash, index := map[], map[], map[];
    }

    ghost predicate Valid()
      reads this
    {
      Consistent(files, byOwner, byHash, index)
    }

    /** One transaction: an error or a panic rolls everything back. */
    method SetFile(ex: Path, fi: Option<FileInfo>, owner: string) returns (out: Outcome)
      requires Valid() && ValidPath(ex) && ValidIdent(owner)
      modifies this
      ensures Valid() && out == Ending(old(index), ex, fi)
      ensures out == Panicked <==> fi.None? && ex !in old(index) && forall q :: q in old(index) ==> !(q < ex)
      ensures out == Committed <==>
        && (forall q :: q in old(index) ==> !(q < ex))
        && (if fi.None? then ex in old(index) else fi.value.hash != "" && forall q :: q in old(index) ==> !(ex < q))
      ensures out != Committed ==> unchanged(this)
      ensures out == Committed ==>
        && index == Apply(old(index), ex, fi, owner)
        && ClaimsUpdated(old(byOwner), byOwner, ex, fi.None?, owner)
        && ListsUpdated(old(byHash), byHash, HashOf(old(index), ex, fi), fi.None?, owner)
        && EntriesUpdated(old(byHash), byHash, HashOf(old(index), ex, fi), fi.None?, owner)
      ensures out == Committed ==>
        StayExactIff(old(byOwner), byOwner, old(byHash), byHash, old(index), index, ex, fi, owner)
    {
      var s, b, l;
      EndingIs(index, ex, fi);
      out, s, b, l := Transact(files, byOwner, byHash, index, ex, fi, owner);
      if out == Committed {
        IndicesStayExactIff(byOwner, b, byHash, l, index, ex, fi, owner);
        files, byOwner, byHash := s, b, l;
        index := Apply(index, ex, fi, owner);
      }
    }

    /** What a deletion amounts to for the departure. */
    method Delete(ex: Path, owner: string) returns (out: Outcome)
      requires Valid() && ValidPath(ex) && ValidIdent(owner)
      modifies this
      ensures Valid() && out == Ending(old(index), ex, None) && (out != Committed ==> unchanged(this))
      ensures out == Committed ==> ex in old(index) && index == old(index) - {ex}
      ensures out == Committed ==> ClaimsUpdated(old(byOwner), byOwner, ex, true, owner)
      ensures out == Committed ==> ListsUpdated(old(byHash), byHash, old(index)[ex].info.hash, true, owner)
    {
      out := SetFile(ex, None, owner);
    }

    /** One turn of the loop at lines 205-210. */
    method Forget(fn: string, owner: string, ghost b: OwnerFiles, ghost l: HashLists, ghost m: Index,
                  ghost todo: set<string>, ghost failed: bool)
      returns (out: Outcome)
      requires Valid() && Halfway(b, l, m, owner, todo, failed, index, byOwner, byHash) && ValidIdent(owner)
      requires fn in todo && ValidPath(PathOf(fn)) && forall g :: g in todo ==> !(PathOf(g) < PathOf(fn))
      modifies this
      ensures Valid() && (out == Panicked ==> PathOf(fn) !in m && Exposed(m, PathsOf(FilesOf(b, owner)), PathOf(fn)))
      ensures out == Panicked ==> unchanged(this)
      ensures out != Panicked ==>
        Halfway(b, l, m, owner, todo - {fn}, failed || out == Failed, index, byOwner, byHash)
    {
      ghost var p, m', b', l' := PathOf(fn), index, byOwner, byHash;
      assert p in PathsOf(todo);
      TurnEnds(m, index, PathsOf(FilesOf(b, owner)), PathsOf(todo), failed, p);
      out := Delete(Split(fn, '/'), owner);
      if out != Panicked {
        OneTurn(b, l, m, owner, todo, failed, fn, m', b', l', byOwner, byHash);
      }
    }

    /** Lines 187-212: the names in the peer's bucket are collected first and then deleted one by one,
        a path before those below it, as in the order of the keys. A panic ends the loop. */
    method PeerDisconnected(owner: string) returns (out: Outcome)
      requires Valid() && ValidIdent(owner)
      modifies this
      ensures Valid() && Gone(old(byOwner), old(byHash), old(index), owner, out, index, byOwner, byHash)
    {
      ghost var b, l, m := byOwner, byHash, index;
      out := Committed;
      var todo := FilesOf(byOwner, owner);
      AtFirst(b, l, m, owner);
      while todo != {}
        invariant Valid() && out != Panicked
        invariant Halfway(b, l, m, owner, todo, out == Failed, index, byOwner, byHash)
        decreases todo
      {
        var fn := NextName(todo);
        assert fn in FilesOf(b, owner);
        var r := Forget(fn, owner, b, l, m, todo, out == Failed);
        if r == Panicked {
          PanicsInTheEnd(b, l, m, owner, todo, out == Failed, fn, index, byOwner, byHash);
          return Panicked;
        }
        if r == Failed {
          out := Failed;
        }
        todo := todo - {fn};
      }
      AtLast(b, l, m, owner, out == Failed, index, byOwner, byHash);
    }

    /** Lines 214-231 read the NUL-separated list as if it were separated by '/': the reply is
        right exactly when the hash has a single listed owner without a '/' in its name. */
    method GetOwners(hash: string) returns (r: Option<seq<string>>)
      requires Valid()
      ensures r.None? <==> OwnerList(Value(byHash, hash)) == []
      ensures r.Some? ==> (r.value == OwnerList(Value(byHash, hash)) <==>
        Free(Value(byHash, hash), NUL) && Free(Value(byHash, hash), '/'))
      ensures r.Some? && Free(Value(byHash, hash), '/') ==> r.value == [Paths.Join(OwnerList(Value(byHash, hash)), NUL)]
      ensures r.Some? ==> AllFree(r.value, '/')
      ensures r.Some? ==> Paths.Join(r.value, '/') == Paths.Join(OwnerList(Value(byHash, hash)), NUL)
    {
      var v := Value(byHash, hash);
      if |v| == 0 {
        return None;
      }
      SplitOnOther(v, '/', NUL);
      JoinOfSplit(v, NUL);
      JoinOfSplit(v, '/');
      if Free(v, '/') {
        SplitFree(v, '/');
      }
      return Some(Split(v, '/'));
    }

    /** Lines 233-265. */
    method GetDir(dir: string) returns (r: DirReply)
      requires Valid()
      ensures r.Listing? <==> IsDir(index, PathOf(dir))
      ensures r.Listing? ==> IsListing(r, index, PathOf(dir))
      ensures !r.InvalidPart?
    {
      var ex := PathOf(dir);
      var b: Path := [];
      for i := 0 to |ex|
        invariant b == ex[..i] && b in files
      {
        PrefixIsChild(ex, i);
        StoredDirs(files, index, ex[..i + 1]);
        if ex[i] !in files[b].dirs {
          if IsDir(index, ex) {
            AncestorsAreDirs(index, ex, ex[..i + 1]);
          }
          return NoSuchDir;
        }
        b := Child(b, ex[i]);
      }
      assert b == ex;
      StoredDirs(files, index, ex);
      NodeIsListing(files, index, ex);
      var dirs := ListKeys(files[b].dirs);
      return Listing(files[b].files, dirs);
    }
  }

  lemma PutAlone(m: Index, ex: Path, info: FileInfo)
    requires m.Keys <= {ex} && ex != [] && info.hash != ""
    ensures Ending(m, ex, Some(info)) == Committed
  {
    assert forall q :: q in m ==> q == ex;
  }

  lemma BothClaim(b: OwnerFiles, b': OwnerFiles, b'': OwnerFiles, ex: Path, first: string, second: string)
    requires b == map[] && ClaimsUpdated(b, b', ex, false, first) && ClaimsUpdated(b', b'', ex, false, second)
    ensures FilesOf(b'', first) == {DirName(ex)} && FilesOf(b'', second) == {DirName(ex)}
  {
    assert forall fn :: fn in FilesOf(b', first) <==> fn == DirName(ex);
    assert forall fn :: fn in FilesOf(b'', first) <==> fn == DirName(ex);
    assert forall fn :: fn in FilesOf(b'', second) <==> fn == DirName(ex);
  }

  lemma LastPutCounts(ex: Path, info: FileInfo, info': FileInfo, first: string, second: string)
    ensures Apply(Apply(map[], ex, Some(info), first), ex, Some(info'), second) == map[ex := Entry(info', second)]
  {
  }

  /** Two peers publish one path. */
  method Share(db: Database, ex: Path, info: FileInfo, info': FileInfo, first: string, second: string)
    requires db.Valid() && db.index == map[] && db.byOwner == map[]
    requires ValidPath(ex) && info.hash != "" && info'.hash != ""
    requires ValidIdent(first) && ValidIdent(second) && first != second
    modifies db
    ensures db.Valid() && db.index == map[ex := Entry(info', second)]
    ensures FilesOf(db.byOwner, first) == {DirName(ex)} && FilesOf(db.byOwner, second) == {DirName(ex)}
  {
    ghost var b := db.byOwner;
    PutAlone(db.index, ex, info);
    var out := db.SetFile(ex, Some(info), first);
    ghost var b' := db.byOwner;
    PutAlone(db.index, ex, info');
    out := db.SetFile(ex, Some(info'), second);
    BothClaim(b, b', db.byOwner, ex, first, second);
    LastPutCounts(ex, info, info', first, second);
  }

  /** And one of them leaves. */
  method ShareAndLeave(ex: Path, info: FileInfo, info': FileInfo, first: string, second: string)
    returns (db: Database, out: Outcome)
    requires ValidPath(ex) && info.hash != "" && info'.hash != ""
    requires ValidIdent(first) && ValidIdent(second) && first != second
    ensures fresh(db) && db.Valid() && out == Committed && db.index == map[]
    ensures FilesOf(db.byOwner, second) == {DirName(ex)}
  {
    db := new Database();
    Share(db, ex, info, info', first, second);
    PathOfDirName(ex);
    assert PathsOf({DirName(ex)}) == {ex};
    out := db.PeerDisconnected(first);
  }

  /** When the first of two peers with one path leaves the file is gone, and when the second leaves
      its deletion panics. */
  method SharedPathPanics(ex: Path, info: FileInfo, info': FileInfo, first: string, second: string)
    returns (out: Outcome)
    requires ValidPath(ex) && info.hash != "" && info'.hash != ""
    requires ValidIdent(first) && ValidIdent(second) && first != second
    ensures out == Panicked
  {
    var db;
    db, out := ShareAndLeave(ex, info, info', first, second);
    PathOfDirName(ex);
    assert PathsOf({DirName(ex)}) == {ex};
    assert Exposed(map[], {ex}, ex);
    out := db.PeerDisconnected(second);
  }
}
