/** The abstract database behind all three master databases: a flat map from path to the file's
    info and the peer that published it, and what a directory listing of such a map is. */
module FileIndex {
  import opened Paths

  datatype Option<+T> = None | Some(value: T)

  /** common/types.go; mtime is in nanoseconds since the epoch. */
  datatype FileInfo = FileInfo(size: int, hash: string, mtime: int)

  /** What a Go map lookup gives for an absent path. */
  const ZERO := FileInfo(0, "", 0)

  datatype Entry = Entry(info: FileInfo, owner: string)

  type Index = map<Path, Entry>

  /** SetFile on the flat map: a nil info deletes. */
  function Apply(m: Index, ex: Path, fi: Option<FileInfo>, owner: string): Index {
    match fi
    case Some(i) => m[ex := Entry(i, owner)]
    case None => m - {ex}
  }

  /** A path is published by one peer at a time. */
  predicate OneOwner(m: Index, ex: Path, owner: string) {
    ex in m ==> m[ex].owner == owner
  }

  /** Every file name has a component to it. */
  predicate Named(m: Index) {
    forall p :: p in m ==> p != []
  }

  /** The directories that a flat map implies: the root, and whatever lies above a file. */
  ghost predicate IsDir(m: Index, d: Path) {
    d == [] || exists p :: p in m && d < p
  }

  ghost function FilesIn(m: Index, d: Path): (r: map<string, FileInfo>)
    ensures forall n :: n in r <==> Child(d, n) in m
    ensures forall n :: n in r ==> r[n] == m[Child(d, n)].info
  {
    var names := set p | p in m && p != [] && Init(p) == d :: Last(p);
    assert forall n :: n in names ==> Child(d, n) in m by {
      forall n | n in names ensures Child(d, n) in m {
        var p :| p in m && p != [] && Init(p) == d && n == Last(p);
        IsChild(p);
      }
    }
    map n | n in names :: m[Child(d, n)].info
  }

  ghost function DirsIn(m: Index, d: Path): (r: set<string>)
    ensures forall n :: n in r <==> IsDir(m, Child(d, n))
  {
    var r := set p | p in m && |p| > |d| + 1 && d <= p :: p[|d|];
    assert forall n :: n in r ==> IsDir(m, Child(d, n)) by {
      forall n | n in r ensures IsDir(m, Child(d, n)) {
        var p :| p in m && |p| > |d| + 1 && d <= p && n == p[|d|];
        NextStep(d, p);
      }
    }
    assert forall n :: IsDir(m, Child(d, n)) ==> n in r by {
      forall n | IsDir(m, Child(d, n)) ensures n in r {
        var p :| p in m && Child(d, n) < p;
        assert Child(d, n)[|d|] == n;
      }
    }
    r
  }

  lemma AncestorsAreDirs(m: Index, p: Path, d: Path)
    requires d <= p && IsDir(m, p)
    ensures IsDir(m, d)
  {
  }

  /** An upper bound on the length of the members of a finite set of paths. */
  lemma {:induction false} LengthBound(s: set<Path>) returns (bound: nat)
    ensures forall p :: p in s ==> |p| <= bound
  {
    if s == {} {
      bound := 0;
    } else {
      var p :| p in s;
      var rest := LengthBound(s - {p});
      bound := if |p| > rest then |p| else rest;
      forall q | q in s ensures |q| <= bound {
        if q != p {
          assert q in s - {p};
        }
      }
    }
  }

  // ---------------------------------------------------------------------------------------
  // Who has which hash
  // ---------------------------------------------------------------------------------------

  lemma {:induction false} AtMost<T>(a: set<T>, b: set<T>)
    requires a <= b
    ensures |a| <= |b|
  {
    if a != {} {
      var x :| x in a;
      AtMost(a - {x}, b - {x});
    }
  }

  /** The live paths with hash h that peer o published. */
  ghost function Holding(m: Index, h: string, o: string): set<Path> {
    set p | p in m && m[p].info.hash == h && m[p].owner == o
  }

  ghost function OwnersOf(m: Index, h: string): set<string> {
    set p | p in m && m[p].info.hash == h :: m[p].owner
  }

  lemma OwnersOfHolding(m: Index, h: string, o: string)
    ensures o in OwnersOf(m, h) <==> |Holding(m, h, o)| > 0
  {
    if o in OwnersOf(m, h) {
      var p :| p in m && m[p].info.hash == h && m[p].owner == o;
      assert p in Holding(m, h, o);
    }
    if |Holding(m, h, o)| > 0 {
      assert Holding(m, h, o) != {};
      var p :| p in Holding(m, h, o);
    }
  }

  ghost predicate Counts(e: Entry, h: string, o: string) {
    e.info.hash == h && e.owner == o
  }

  lemma HoldingAfterRemoval(m: Index, ex: Path, h: string, o: string)
    ensures |Holding(m - {ex}, h, o)| == |Holding(m, h, o)| - (if ex in m && Counts(m[ex], h, o) then 1 else 0)
  {
    assert Holding(m - {ex}, h, o) == Holding(m, h, o) - {ex};
  }

  lemma HoldingAfterPut(m: Index, ex: Path, e: Entry, h: string, o: string)
    ensures |Holding(m[ex := e], h, o)| == |Holding(m - {ex}, h, o)| + (if Counts(e, h, o) then 1 else 0)
  {
    var rest := Holding(m - {ex}, h, o);
    assert Holding(m[ex := e], h, o) == if Counts(e, h, o) then rest + {ex} else rest;
  }

  // ---------------------------------------------------------------------------------------
  // Listings
  // ---------------------------------------------------------------------------------------

  ghost predicate NoRepeats<T(!new)>(r: seq<T>) {
    forall i, j :: 0 <= i < j < |r| ==> r[i] != r[j]
  }

  /** r lists the members of s, each once. */
  ghost predicate Lists(r: seq<string>, s: set<string>) {
    NoRepeats(r) && forall x :: x in r <==> x in s
  }

  /** Ranging over a Go map visits every key once, in no particular order. */
  method ListKeys(s: set<string>) returns (r: seq<string>)
    ensures Lists(r, s)
  {
    r := [];
    var todo := s;
    while todo != {}
      invariant todo <= s && Lists(r, s - todo)
      decreases todo
    {
      var x :| x in todo;
      todo := todo - {x};
      r := r + [x];
    }
  }

  /** What a directory request returns. */
  datatype DirReply =
    | Listing(files: map<string, FileInfo>, dirs: seq<string>)
    | InvalidPart
    | NoSuchDir

  /** The reply is the listing that the flat map implies. */
  ghost predicate IsListing(r: DirReply, m: Index, d: Path) {
    r.Listing? && r.files == FilesIn(m, d) && Lists(r.dirs, DirsIn(m, d))
  }

  // ---------------------------------------------------------------------------------------
  // Dropping the files that only one peer has
  // ---------------------------------------------------------------------------------------

  /** The files whose hash some peer other than o has too. */
  ghost function Surviving(m: Index, o: string): Index {
    map p | p in m && OwnersOf(m, m[p].info.hash) != {o} :: m[p]
  }

  /** Every file left has another owner among the files left, and no other peer lost a file. */
  lemma SurvivorsHaveAnotherOwner(m: Index, o: string)
    ensures forall p :: p in Surviving(m, o) ==>
      exists q :: q in Surviving(m, o) && q in m && m[q].info.hash == m[p].info.hash && m[q].owner != o
    ensures forall p :: p in m && m[p].owner != o ==> p in Surviving(m, o)
  {
    forall p | p in m && m[p].owner != o ensures p in Surviving(m, o) {
      assert m[p].owner in OwnersOf(m, m[p].info.hash);
    }
    forall p | p in Surviving(m, o)
      ensures exists q :: q in Surviving(m, o) && q in m && m[q].info.hash == m[p].info.hash && m[q].owner != o
    {
      var all := OwnersOf(m, m[p].info.hash);
      assert m[p].owner in all;
      var other :| other in all && other != o;
      var q :| q in m && m[q].info.hash == m[p].info.hash && m[q].owner == other;
      assert q in Surviving(m, o);
    }
  }

  /** A file whose hash another peer has stays, as it is. */
  lemma SharedFileSurvives(m: Index, o: string, p: Path, q: Path)
    requires p in m && q in m && m[q].info.hash == m[p].info.hash && m[q].owner != o
    ensures p in Surviving(m, o) && Surviving(m, o)[p] == m[p]
  {
    assert m[q].owner in OwnersOf(m, m[p].info.hash);
  }

  /** The peer is gone from the index exactly when no other peer has one of its hashes. */
  lemma GoneExactly(m: Index, o: string)
    ensures (forall p :: p in Surviving(m, o) ==> m[p].owner != o)
       <==> (forall p, q :: p in m && q in m && m[p].owner == o && m[q].info.hash == m[p].info.hash ==> m[q].owner == o)
  {
    if forall p :: p in Surviving(m, o) ==> m[p].owner != o {
      forall p, q | p in m && q in m && m[p].owner == o && m[q].info.hash == m[p].info.hash
        ensures m[q].owner == o
      {
        assert p !in Surviving(m, o);
        assert m[q].owner in OwnersOf(m, m[p].info.hash);
      }
    }
    if forall p, q :: p in m && q in m && m[p].owner == o && m[q].info.hash == m[p].info.hash ==> m[q].owner == o {
      forall p | p in m && m[p].owner == o ensures OwnersOf(m, m[p].info.hash) == {o} {
        assert o in OwnersOf(m, m[p].info.hash);
      }
    }
  }
}
