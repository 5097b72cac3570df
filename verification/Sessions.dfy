/** master.go: what one connection may do, and what the SQLite table holds after any run of
    connections, sign-ins, publications and disconnects. */
module Sessions {
  import opened Paths
  import opened FileIndex
  import Sqlite

  /** A connection's Peer. `cert` is the user its certificate chain proved, if any, and `host` the
      remote host. `published` is the net effect of the connection's own SetFiles. */
  datatype Session = Session(cert: Option<string>, host: string, user: string, address: string, ident: string,
                             published: map<Path, FileInfo>)

  datatype State = State(table: Sqlite.Table, sessions: map<int, Session>)

  /** `reachable` says whether the master could connect back and ping. */
  datatype Event =
    | Accept(c: int, cert: Option<string>, host: string)
    | Signin(c: int, version: int, user: string, addr: string, reachable: bool)
    | SetFile(c: int, path: string, info: Option<FileInfo>)
    | Disconnect(c: int)

  // ---------------------------------------------------------------------------------------
  // The requests
  // ---------------------------------------------------------------------------------------

  /** net.JoinHostPort. */
  function JoinHostPort(host: string, port: string): string {
    if ':' in host then "[" + host + "]:" + port else host + ":" + port
  }

  /** Lines 133-136: an address without a host is completed with the remote host. */
  function FullAddress(host: string, addr: string): string {
    if addr != "" && addr[0] == ':' then JoinHostPort(host, addr[1..]) else addr
  }

  function IdentOf(user: string, address: string): string {
    user + "@" + address
  }

  predicate SigninRefused(s: Session, version: int, user: string, addr: string, reachable: bool) {
    || version != 1 || user == "" || s.cert == None || s.cert.value != user
    || (addr != "" && !reachable)
  }

  function SignedIn(s: Session, user: string, addr: string): Session {
    var full := FullAddress(s.host, addr);
    if addr == "" then s.(user := user)
    else s.(user := user, address := full, ident := IdentOf(user, full))
  }

  /** The user's name goes before the components of the request's path. */
  function Prefixed(s: Session, path: string): Path {
    [s.user] + Split(path, '/')
  }

  predicate BadPart(p: string) {
    |p| == 0 || p[0] == '.'
  }

  predicate SetFileRefused(s: Session, path: string) {
    s.address == "" || exists i :: 0 <= i < |Prefixed(s, path)| && BadPart(Prefixed(s, path)[i])
  }

  function Published(s: Session, ex: Path, info: Option<FileInfo>): Session {
    s.(published := if info.Some? then s.published[ex := info.value] else s.published - {ex})
  }

  /** One event on the whole system; requests of connections that are gone do not occur. */
  function Step(s: State, e: Event): State {
    match e
    case Accept(c, cert, host) =>
      if c in s.sessions then s
      else s.(sessions := s.sessions[c := Session(cert, host, "", "", "", map[])])
    case Signin(c, version, user, addr, reachable) =>
      if c !in s.sessions || SigninRefused(s.sessions[c], version, user, addr, reachable) then s
      else s.(sessions := s.sessions[c := SignedIn(s.sessions[c], user, addr)])
    case SetFile(c, path, info) =>
      if c !in s.sessions || SetFileRefused(s.sessions[c], path) then s
      else
        var peer := s.sessions[c];
        var ex := Prefixed(peer, path);
        State(Sqlite.SetRow(s.table, ex, info, peer.ident), s.sessions[c := Published(peer, ex, info)])
    case Disconnect(c) =>
      if c !in s.sessions then s
      else if s.sessions[c].address == "" then s.(sessions := s.sessions - {c})
      else State(Sqlite.DropPeer(s.table, s.sessions[c].ident), s.sessions - {c})
  }

  // ---------------------------------------------------------------------------------------
  // What holds between the table and the live connections
  // ---------------------------------------------------------------------------------------

  /** A live connection's own fields. User names contain no '/'. */
  ghost predicate WellFormed(s: Session) {
    && (s.cert.Some? ==> Free(s.cert.value, '/'))
    && (s.user != "" ==> s.cert == Some(s.user))
    && (s.address != "" ==> s.user != "" && s.ident == IdentOf(s.user, s.address))
    && (s.address == "" ==> s.published == map[])
    && (forall p :: p in s.published ==> ValidPath(p) && p[0] == s.user)
  }

  ghost predicate AllWellFormed(ss: map<int, Session>) {
    forall c {:trigger WellFormed(ss[c])} :: c in ss ==> WellFormed(ss[c])
  }

  /** Some live connection published this row. */
  ghost predicate Backed(t: Sqlite.Table, ss: map<int, Session>, k: Sqlite.Key, c: int)
    requires k in t
  {
    && c in ss && ss[c].ident == k.peer && Sqlite.PathOfKey(k) in ss[c].published
    && t[k] == Sqlite.RowOf(ss[c].published[Sqlite.PathOfKey(k)])
  }

  ghost predicate IsBacked(t: Sqlite.Table, ss: map<int, Session>, k: Sqlite.Key)
    requires k in t
  {
    exists c :: Backed(t, ss, k, c)
  }

  ghost predicate Stored(t: Sqlite.Table, s: Session, p: Path)
    requires p in s.published && p != []
  {
    Sqlite.KeyOf(p, s.ident) in t
  }

  /** The table is the union of what the live connections published. */
  ghost predicate Mirrors(t: Sqlite.Table, ss: map<int, Session>) {
    && (forall k {:trigger IsBacked(t, ss, k)} :: k in t ==> IsBacked(t, ss, k))
    && (forall c, p {:trigger Stored(t, ss[c], p)} :: c in ss && p in ss[c].published && p != [] ==>
          Stored(t, ss[c], p))
  }

  /** No two live connections have the same ident. */
  ghost predicate Distinct(ss: map<int, Session>) {
    forall c, d :: c in ss && d in ss && c != d && ss[c].address != "" && ss[d].address != "" ==>
      ss[c].ident != ss[d].ident
  }

  ghost predicate Inv(s: State) {
    AllWellFormed(s.sessions) && Mirrors(s.table, s.sessions) && Distinct(s.sessions)
  }

  lemma PublishedIsAddressed(s: Session, p: Path)
    requires WellFormed(s) && p in s.published
    ensures s.address != "" && s.user != "" && ValidPath(p) && p != []
  {
  }

  // ---------------------------------------------------------------------------------------
  // SetFile
  // ---------------------------------------------------------------------------------------

  lemma RefusedFor(s: Session, path: string)
    ensures SetFileRefused(s, path) <==>
      s.address == "" || exists n :: n in [s.user] + Split(path, '/') && (n == "" || n[0] == '.')
  {
    var ex := Prefixed(s, path);
    if exists n :: n in ex && (n == "" || n[0] == '.') {
      var n :| n in ex && (n == "" || n[0] == '.');
      var i :| 0 <= i < |ex| && ex[i] == n;
      assert BadPart(ex[i]);
    }
    if exists i :: 0 <= i < |ex| && BadPart(ex[i]) {
      var i :| 0 <= i < |ex| && BadPart(ex[i]);
      assert ex[i] in ex;
    }
  }

  /** What passes the master's checks is a path below the user's own name. */
  lemma PrefixedIsValid(s: Session, path: string)
    requires WellFormed(s) && !SetFileRefused(s, path)
    ensures ValidPath(Prefixed(s, path)) && Prefixed(s, path)[0] == s.user
  {
  }

  lemma SetFileMirrors(t: Sqlite.Table, ss: map<int, Session>, c: int, ex: Path, info: Option<FileInfo>)
    requires AllWellFormed(ss) && Mirrors(t, ss) && Distinct(ss)
    requires c in ss && ss[c].address != "" && ValidPath(ex)
    ensures Mirrors(Sqlite.SetRow(t, ex, info, ss[c].ident), ss[c := Published(ss[c], ex, info)])
  {
    var me := ss[c];
    var key := Sqlite.KeyOf(ex, me.ident);
    var t', ss' := Sqlite.SetRow(t, ex, info, me.ident), ss[c := Published(me, ex, info)];
    Sqlite.KeyAndPath(ex, me.ident);
    forall k | k in t' ensures IsBacked(t', ss', k) {
      if k == key {
        assert Backed(t', ss', k, c);
      } else {
        assert IsBacked(t, ss, k);
        var d :| Backed(t, ss, k, d);
        Sqlite.PathAndKey(k);
        assert Backed(t', ss', k, d);
      }
    }
    forall d, p | d in ss' && p in ss'[d].published && p != [] ensures Stored(t', ss'[d], p) {
      if !(d == c && p == ex) {
        assert Stored(t, ss[d], p);
        assert WellFormed(ss[d]);
        PublishedIsAddressed(ss[d], p);
        Sqlite.KeyAndPath(p, ss[d].ident);
      }
    }
  }

  lemma SetFileKeeps(s: State, c: int, path: string, info: Option<FileInfo>)
    requires Inv(s)
    ensures Inv(Step(s, SetFile(c, path, info)))
  {
    if c in s.sessions && !SetFileRefused(s.sessions[c], path) {
      PrefixedIsValid(s.sessions[c], path);
      SetFileMirrors(s.table, s.sessions, c, Prefixed(s.sessions[c], path), info);
    }
  }

  // ---------------------------------------------------------------------------------------
  // Signin and Disconnect: exactly when they keep the invariant
  // ---------------------------------------------------------------------------------------

  /** No other live connection signed in under this ident. */
  ghost predicate Unshared(ss: map<int, Session>, c: int, ident: string) {
    forall d :: d in ss && d != c && ss[d].address != "" ==> ss[d].ident != ident
  }

  /** A sign-in with an address must not reuse an ident, and must not rename a connection that has
      published. */
  ghost predicate SigninFair(ss: map<int, Session>, c: int, user: string, addr: string)
    requires c in ss
  {
    var ident := SignedIn(ss[c], user, addr).ident;
    addr != "" ==> Unshared(ss, c, ident) && (ss[c].published == map[] || ss[c].ident == ident)
  }

  lemma SigninWellFormed(s: Session, version: int, user: string, addr: string, reachable: bool)
    requires WellFormed(s) && !SigninRefused(s, version, user, addr, reachable)
    ensures WellFormed(SignedIn(s, user, addr))
  {
  }

  /** The same connections published the same files under the same idents. */
  ghost predicate SamePublications(ss: map<int, Session>, ss': map<int, Session>) {
    && (forall c :: c in ss && ss[c].published != map[] ==>
          c in ss' && ss'[c].ident == ss[c].ident && ss'[c].published == ss[c].published)
    && (forall c :: c in ss' && ss'[c].published != map[] ==>
          c in ss && ss'[c].ident == ss[c].ident && ss'[c].published == ss[c].published)
  }

  lemma SameMirror(t: Sqlite.Table, ss: map<int, Session>, ss': map<int, Session>)
    requires Mirrors(t, ss) && SamePublications(ss, ss')
    ensures Mirrors(t, ss')
  {
    forall k | k in t ensures IsBacked(t, ss', k) {
      assert IsBacked(t, ss, k);
      var d :| Backed(t, ss, k, d);
      assert Backed(t, ss', k, d);
    }
    forall d, p | d in ss' && p in ss'[d].published && p != [] ensures Stored(t, ss'[d], p) {
      assert Stored(t, ss[d], p);
    }
  }

  lemma RenamedUnbacked(t: Sqlite.Table, ss: map<int, Session>, c: int, me: Session, p: Path)
    requires AllWellFormed(ss) && Distinct(ss) && c in ss && p in ss[c].published && p != []
    requires me.ident != ss[c].ident && Sqlite.KeyOf(p, ss[c].ident) in t
    ensures !IsBacked(t, ss[c := me], Sqlite.KeyOf(p, ss[c].ident))
  {
    var ss', k := ss[c := me], Sqlite.KeyOf(p, ss[c].ident);
    assert WellFormed(ss[c]);
    forall d ensures !Backed(t, ss', k, d) {
      if d in ss' && d != c {
        assert WellFormed(ss[d]);
      }
    }
  }

  lemma SigninMirrorsIff(t: Sqlite.Table, ss: map<int, Session>, c: int, me: Session)
    requires AllWellFormed(ss) && Mirrors(t, ss) && Distinct(ss) && c in ss
    requires me.published == ss[c].published
    ensures Mirrors(t, ss[c := me]) <==> me.published == map[] || me.ident == ss[c].ident
  {
    if me.published == map[] || me.ident == ss[c].ident {
      SameMirror(t, ss, ss[c := me]);
    } else {
      var p :| p in me.published;
      assert WellFormed(ss[c]);
      PublishedIsAddressed(ss[c], p);
      assert Stored(t, ss[c], p);
      RenamedUnbacked(t, ss, c, me, p);
    }
  }

  lemma SigninKeepsIff(s: State, c: int, version: int, user: string, addr: string, reachable: bool)
    requires Inv(s) && c in s.sessions && !SigninRefused(s.sessions[c], version, user, addr, reachable)
    ensures Inv(Step(s, Signin(c, version, user, addr, reachable))) <==> SigninFair(s.sessions, c, user, addr)
  {
    var me := SignedIn(s.sessions[c], user, addr);
    var ss' := s.sessions[c := me];
    SigninWellFormed(s.sessions[c], version, user, addr, reachable);
    SigninMirrorsIff(s.table, s.sessions, c, me);
    if addr == "" {
      assert forall d :: d in ss' ==> ss'[d].ident == s.sessions[d].ident && ss'[d].address == s.sessions[d].address;
    } else {
      assert me.address != "";
      if Distinct(ss') {
        forall d | d in s.sessions && d != c && s.sessions[d].address != "" ensures s.sessions[d].ident != me.ident {
          assert ss'[d].ident != ss'[c].ident;
        }
      }
    }
  }

  lemma AcceptKeeps(s: State, c: int, cert: Option<string>, host: string)
    requires Inv(s) && (cert.Some? ==> Free(cert.value, '/'))
    ensures Inv(Step(s, Accept(c, cert, host)))
  {
    if c !in s.sessions {
      SameMirror(s.table, s.sessions, Step(s, Accept(c, cert, host)).sessions);
    }
  }

  /** Dropping one connection's rows leaves a mirror of the others exactly when no other live
      connection of the same ident has published anything. */
  lemma DisconnectMirrorsIff(t: Sqlite.Table, ss: map<int, Session>, c: int)
    requires AllWellFormed(ss) && Mirrors(t, ss) && c in ss
    ensures Mirrors(Sqlite.DropPeer(t, ss[c].ident), ss - {c}) <==>
      forall d :: d in ss && d != c && ss[d].ident == ss[c].ident ==> ss[d].published == map[]
  {
    var t', ss' := Sqlite.DropPeer(t, ss[c].ident), ss - {c};
    forall k | k in t' ensures IsBacked(t', ss', k) {
      assert IsBacked(t, ss, k);
      var d :| Backed(t, ss, k, d);
      assert Backed(t', ss', k, d);
    }
    if forall d :: d in ss && d != c && ss[d].ident == ss[c].ident ==> ss[d].published == map[] {
      forall d, p | d in ss' && p in ss'[d].published && p != [] ensures Stored(t', ss'[d], p) {
        assert Stored(t, ss[d], p);
      }
    } else {
      var d :| d in ss && d != c && ss[d].ident == ss[c].ident && ss[d].published != map[];
      var p :| p in ss[d].published;
      assert WellFormed(ss[d]);
      PublishedIsAddressed(ss[d], p);
      assert !Stored(t', ss'[d], p);
    }
  }

  lemma DisconnectKeeps(s: State, c: int)
    requires Inv(s)
    ensures Inv(Step(s, Disconnect(c)))
  {
    if c in s.sessions {
      DisconnectMirrorsIff(s.table, s.sessions, c);
      forall d | d in s.sessions && d != c && s.sessions[d].ident == s.sessions[c].ident && s.sessions[c].address != ""
        ensures s.sessions[d].published == map[]
      {
        assert WellFormed(s.sessions[d]);
      }
      if s.sessions[c].address == "" {
        UnaddressedLeaves(s.table, s.sessions, c);
      }
    }
  }

  lemma UnaddressedLeaves(t: Sqlite.Table, ss: map<int, Session>, c: int)
    requires AllWellFormed(ss) && Mirrors(t, ss) && c in ss && ss[c].address == ""
    ensures Mirrors(t, ss - {c})
  {
    assert WellFormed(ss[c]);
    SameMirror(t, ss, ss - {c});
  }

  // ---------------------------------------------------------------------------------------
  // Whole runs
  // ---------------------------------------------------------------------------------------

  ghost predicate Fair(s: State, e: Event) {
    match e
    case Accept(c, cert, host) => cert.Some? ==> Free(cert.value, '/')
    case Signin(c, version, user, addr, reachable) =>
      c in s.sessions && !SigninRefused(s.sessions[c], version, user, addr, reachable) ==>
        SigninFair(s.sessions, c, user, addr)
    case _ => true
  }

  function Run(events: seq<Event>): State {
    if events == [] then State(map[], map[])
    else Step(Run(events[..|events| - 1]), events[|events| - 1])
  }

  ghost predicate AllFair(events: seq<Event>) {
    forall i {:trigger events[i]} :: 0 <= i < |events| ==> Fair(Run(events[..i]), events[i])
  }

  /** Over every run the table is the union of what the live connections published, and every path
      starts with the name of the user who published it. */
  lemma {:induction false} EveryRunMirrors(events: seq<Event>)
    requires AllFair(events)
    ensures Inv(Run(events))
  {
    if events != [] {
      var before, e := events[..|events| - 1], events[|events| - 1];
      forall i {:trigger before[i]} | 0 <= i < |before| ensures Fair(Run(before[..i]), before[i]) {
        assert before[i] == events[i] && before[..i] == events[..i];
      }
      EveryRunMirrors(before);
      var s := Run(before);
      assert Fair(s, e);
      match e {
        case Accept(c, cert, host) => AcceptKeeps(s, c, cert, host);
        case Signin(c, version, user, addr, reachable) =>
          if c in s.sessions && !SigninRefused(s.sessions[c], version, user, addr, reachable) {
            SigninKeepsIff(s, c, version, user, addr, reachable);
          }
        case SetFile(c, path, info) => SetFileKeeps(s, c, path, info);
        case Disconnect(c) => DisconnectKeeps(s, c);
      }
    }
  }

  /** GetOwners names exactly the live connections that now publish the hash. */
  lemma OwnersAreLive(events: seq<Event>, hash: string)
    requires AllFair(events)
    ensures var s := Run(events);
      Sqlite.PeersWith(s.table, hash) ==
        set c, p | c in s.sessions && p in s.sessions[c].published && s.sessions[c].published[p].hash == hash
          :: s.sessions[c].ident
  {
    EveryRunMirrors(events);
    var s := Run(events);
    var live := set c, p | c in s.sessions && p in s.sessions[c].published && s.sessions[c].published[p].hash == hash
      :: s.sessions[c].ident;
    forall o | o in Sqlite.PeersWith(s.table, hash) ensures o in live {
      var k :| k in s.table && s.table[k].hash == hash && k.peer == o;
      assert IsBacked(s.table, s.sessions, k);
      var c :| Backed(s.table, s.sessions, k, c);
      assert s.sessions[c].published[Sqlite.PathOfKey(k)].hash == hash;
    }
    forall o | o in live ensures o in Sqlite.PeersWith(s.table, hash) {
      var c, p :| c in s.sessions && p in s.sessions[c].published && s.sessions[c].published[p].hash == hash
        && s.sessions[c].ident == o;
      assert WellFormed(s.sessions[c]);
      PublishedIsAddressed(s.sessions[c], p);
      assert Stored(s.table, s.sessions[c], p);
      RowIsOwn(s, c, p);
    }
  }

  /** With distinct idents a connection's row holds what that connection published last. */
  lemma RowIsOwn(s: State, c: int, p: Path)
    requires Inv(s) && c in s.sessions && p in s.sessions[c].published
    ensures p != []
    ensures var k := Sqlite.KeyOf(p, s.sessions[c].ident);
      k in s.table && s.table[k] == Sqlite.RowOf(s.sessions[c].published[p])
    ensures var row, info := s.table[Sqlite.KeyOf(p, s.sessions[c].ident)], s.sessions[c].published[p];
      && row.size == info.size && row.hash == info.hash
      && row.mtime * 1_000_000_000 <= info.mtime < row.mtime * 1_000_000_000 + 1_000_000_000
  {
    Sqlite.ThroughRow(s.sessions[c].published[p]);
    assert WellFormed(s.sessions[c]);
    PublishedIsAddressed(s.sessions[c], p);
    assert Stored(s.table, s.sessions[c], p);
    var k := Sqlite.KeyOf(p, s.sessions[c].ident);
    Sqlite.KeyAndPath(p, s.sessions[c].ident);
    assert IsBacked(s.table, s.sessions, k);
    var d :| Backed(s.table, s.sessions, k, d);
    assert WellFormed(s.sessions[d]);
    PublishedIsAddressed(s.sessions[d], p);
  }

  // ---------------------------------------------------------------------------------------
  // The master's own code
  // ---------------------------------------------------------------------------------------

  lemma RunOn(events: seq<Event>, e: Event)
    ensures Run(events + [e]) == Step(Run(events), e)
  {
  }

  /** A peer that reconnects before the master notices that its first connection is gone: the late
      disconnect of the first takes the rows of the second. */
  lemma LateDisconnectErases(u: string, host: string, addr: string, name: string, info: FileInfo)
    requires u != "" && u[0] != '.' && Free(u, '/') && addr != "" && name != "" && name[0] != '.' && Free(name, '/')
    ensures var events := [Accept(1, Some(u), host)] + [Signin(1, 1, u, addr, true)] + [Accept(2, Some(u), host)]
        + [Signin(2, 1, u, addr, true)] + [SetFile(2, name, Some(info))] + [Disconnect(1)];
      && Run(events).table == map[]
      && 2 in Run(events).sessions && Run(events).sessions[2].published == map[[u, name] := info]
  {
    var e1 := [Accept(1, Some(u), host)];
    var e2 := e1 + [Signin(1, 1, u, addr, true)];
    var e3 := e2 + [Accept(2, Some(u), host)];
    var e4 := e3 + [Signin(2, 1, u, addr, true)];
    var e5 := e4 + [SetFile(2, name, Some(info))];
    assert [] + e1 == e1;
    RunOn([], Accept(1, Some(u), host));
    RunOn(e1, Signin(1, 1, u, addr, true));
    RunOn(e2, Accept(2, Some(u), host));
    RunOn(e3, Signin(2, 1, u, addr, true));
    RunOn(e4, SetFile(2, name, Some(info)));
    RunOn(e5, Disconnect(1));
    var newcomer := Session(Some(u), host, "", "", "", map[]);
    var me := SignedIn(newcomer, u, addr);
    assert Run(e4) == State(map[], map[1 := me, 2 := me]);
    SplitFree(name, '/');
    assert Prefixed(me, name) == [u, name];
    assert !SetFileRefused(me, name);
    var key := Sqlite.KeyOf([u, name], me.ident);
    assert Run(e5).table.Keys == {key};
    assert Run(e5).sessions[2].published == map[[u, name] := info];
  }

  /** The event is the sign-in of a connection of this user whom the master could reach, and the
      connection has not been lost since. */
  ghost predicate IsOwnSignin(events: seq<Event>, i: nat, c: int, cert: Option<string>)
    requires i < |events|
  {
    && events[i].Signin? && events[i].c == c && events[i].version == 1 && events[i].user != ""
    && cert == Some(events[i].user) && events[i].addr != "" && events[i].reachable
    && forall j :: i < j < |events| ==> events[j] != Disconnect(c)
  }

  /** A live connection has an address only if it signed in, under its certificate's name, with an
      address at which the master reached it. */
  lemma {:induction false} AddressedSignedIn(events: seq<Event>, c: int) returns (i: nat)
    requires c in Run(events).sessions && Run(events).sessions[c].address != ""
    ensures i < |events| && IsOwnSignin(events, i, c, Run(events).sessions[c].cert)
  {
    var before, e := events[..|events| - 1], events[|events| - 1];
    var s := Run(before);
    if e.Signin? && e.c == c && !SigninRefused(s.sessions[c], e.version, e.user, e.addr, e.reachable) && e.addr != "" {
      i := |events| - 1;
    } else {
      i := AddressedSignedIn(before, c);
      assert events[i] == before[i];
    }
  }

  // ---------------------------------------------------------------------------------------
  // One publisher per path
  // ---------------------------------------------------------------------------------------

  /** No peer but this one has a row for the path. */
  ghost predicate OnePeer(t: Sqlite.Table, ex: Path, peer: string) {
    forall k {:trigger Sqlite.PathOfKey(k)} :: k in t && Sqlite.PathOfKey(k) == ex ==> k.peer == peer
  }

  /** A request's path has no other publisher exactly when no other live connection publishes it, and one
      that does is a connection of the same user. */
  lemma OnePeerIff(s: State, c: int, path: string)
    requires Inv(s) && c in s.sessions && !SetFileRefused(s.sessions[c], path)
    ensures OnePeer(s.table, Prefixed(s.sessions[c], path), s.sessions[c].ident) <==>
      forall d :: d in s.sessions && d != c ==> Prefixed(s.sessions[c], path) !in s.sessions[d].published
    ensures forall d :: d in s.sessions && Prefixed(s.sessions[c], path) in s.sessions[d].published ==>
      s.sessions[d].user == s.sessions[c].user
  {
    var t, ss, ex := s.table, s.sessions, Prefixed(s.sessions[c], path);
    assert WellFormed(ss[c]);
    forall d | d in ss && ex in ss[d].published ensures ss[d].user == ss[c].user {
      assert WellFormed(ss[d]);
    }
    if d :| d in ss && d != c && ex in ss[d].published {
      assert WellFormed(ss[d]) && Stored(t, ss[d], ex);
      Sqlite.KeyAndPath(ex, ss[d].ident);
      assert Sqlite.PathOfKey(Sqlite.KeyOf(ex, ss[d].ident)) == ex;
    } else {
      forall k | k in t && Sqlite.PathOfKey(k) == ex ensures k.peer == ss[c].ident {
        assert IsBacked(t, ss, k);
        var d :| Backed(t, ss, k, d);
        assert d == c;
      }
    }
  }

  lemma SigninReaches(s: State, c: int, u: string, addr: string)
    requires Inv(s) && c in s.sessions && s.sessions[c].cert == Some(u) && u != "" && addr != ""
    requires s.sessions[c].published == map[]
    requires Unshared(s.sessions, c, IdentOf(u, FullAddress(s.sessions[c].host, addr)))
    ensures var s' := Step(s, Signin(c, 1, u, addr, true));
      Inv(s') && s'.sessions == s.sessions[c := SignedIn(s.sessions[c], u, addr)]
  {
    SigninKeepsIff(s, c, 1, u, addr, true);
  }

  lemma SetFileReaches(s: State, c: int, name: string, info: FileInfo)
    requires Inv(s) && c in s.sessions && s.sessions[c].address != "" && s.sessions[c].user != ""
    requires s.sessions[c].user[0] != '.' && name != "" && name[0] != '.' && Free(name, '/')
    ensures var me, s' := s.sessions[c], Step(s, SetFile(c, name, Some(info)));
      Inv(s') && s'.sessions == s.sessions[c := Published(me, [me.user, name], Some(info))]
  {
    SplitFree(name, '/');
    SetFileKeeps(s, c, name, Some(info));
    var ex := Prefixed(s.sessions[c], name);
    assert ex == [s.sessions[c].user, name];
    assert forall i :: 0 <= i < |ex| ==> !BadPart(ex[i]);
  }

  /** Two connections of one user at two addresses may publish one path, with every invariant kept. */
  lemma TwoAddressesOnePath(u: string, host: string, addr: string, addr': string, name: string,
                            info: FileInfo, info': FileInfo)
    requires u != "" && u[0] != '.' && Free(u, '/') && name != "" && name[0] != '.' && Free(name, '/')
    requires addr != "" && addr' != "" && FullAddress(host, addr) != FullAddress(host, addr')
    ensures var s := Run([Accept(1, Some(u), host)] + [Accept(2, Some(u), host)] + [Signin(1, 1, u, addr, true)]
        + [Signin(2, 1, u, addr', true)] + [SetFile(1, name, Some(info))] + [SetFile(2, name, Some(info'))]);
      && Inv(s) && 1 in s.sessions && 2 in s.sessions && s.sessions[1].ident != s.sessions[2].ident
      && s.sessions[1].published == map[[u, name] := info] && s.sessions[2].published == map[[u, name] := info']
  {
    var e1 := [Accept(1, Some(u), host)];
    var e2 := e1 + [Accept(2, Some(u), host)];
    var e3 := e2 + [Signin(1, 1, u, addr, true)];
    var e4 := e3 + [Signin(2, 1, u, addr', true)];
    var e5 := e4 + [SetFile(1, name, Some(info))];
    assert [] + e1 == e1;
    RunOn([], Accept(1, Some(u), host));
    RunOn(e1, Accept(2, Some(u), host));
    RunOn(e2, Signin(1, 1, u, addr, true));
    RunOn(e3, Signin(2, 1, u, addr', true));
    RunOn(e4, SetFile(1, name, Some(info)));
    RunOn(e5, SetFile(2, name, Some(info')));
    AcceptKeeps(Run([]), 1, Some(u), host);
    AcceptKeeps(Run(e1), 2, Some(u), host);
    var newcomer := Session(Some(u), host, "", "", "", map[]);
    assert Run(e2).sessions == map[1 := newcomer, 2 := newcomer];
    SigninReaches(Run(e2), 1, u, addr);
    IdentsDiffer(u, FullAddress(host, addr), FullAddress(host, addr'));
    SigninReaches(Run(e3), 2, u, addr');
    SetFileReaches(Run(e4), 1, name, info);
    SetFileReaches(Run(e5), 2, name, info');
  }

  lemma IdentsDiffer(u: string, a: string, b: string)
    requires a != b
    ensures IdentOf(u, a) != IdentOf(u, b)
  {
    assert IdentOf(u, a)[|u| + 1..] == a && IdentOf(u, b)[|u| + 1..] == b;
  }

  lemma StepWellFormed(s: State, e: Event)
    requires AllWellFormed(s.sessions) && (e.Accept? && e.cert.Some? ==> Free(e.cert.value, '/'))
    ensures AllWellFormed(Step(s, e).sessions)
  {
    var s' := Step(s, e);
    forall c | c in s'.sessions ensures WellFormed(s'.sessions[c]) {
      if c in s.sessions {
        assert WellFormed(s.sessions[c]);
        if e.SetFile? && e.c == c && !SetFileRefused(s.sessions[c], e.path) {
          PrefixedIsValid(s.sessions[c], e.path);
        }
      }
    }
  }

  class Peer {
    const cert: Option<string>
    const host: string
    var user: string
    var address: string
    var ident: string
    ghost const id: int

    constructor (cert: Option<string>, host: string, ghost id: int)
      ensures this.cert == cert && this.host == host && this.id == id
      ensures user == "" && address == "" && ident == ""
    {
      this.cert, this.host, this.id := cert, host, id;
      user, address, ident := "", "", "";
    }

    ghost predicate Is(s: Session)
      reads this
    {
      cert == s.cert && host == s.host && user == s.user && address == s.address && ident == s.ident
    }
  }

  class Master {
    const db: Sqlite.Database
    /** The live connections. */
    ghost var peers: map<int, Peer>
    ghost var accepted: nat
    /** The state that the run so far has led to. */
    ghost var image: State

    constructor ()
      ensures Valid() && image == State(map[], map[]) && fresh(db)
    {
      db := new Sqlite.Database();
      peers, accepted := map[], 0;
      image := State(map[], map[]);
    }

    ghost predicate Valid()
      reads this, db, peers.Values
    {
      && db.Valid() && db.fs == image.table && AllWellFormed(image.sessions)
      && peers.Keys == image.sessions.Keys
      && forall c :: c in peers ==> c < accepted && peers[c].id == c && peers[c].Is(image.sessions[c])
    }

    ghost predicate Serves(p: Peer)
      reads this
    {
      p.id in peers && peers[p.id] == p
    }

    /** Lines 79-95. */
    method Accept(cert: Option<string>, host: string) returns (p: Peer)
      requires Valid() && (cert.Some? ==> Free(cert.value, '/'))
      modifies this`peers, this`accepted, this`image
      ensures Valid() && fresh(p) && Serves(p) && p.id !in old(peers)
      ensures image == Step(old(image), Event.Accept(p.id, cert, host))
      ensures p.cert == cert && p.host == host && p.user == "" && p.address == "" && p.ident == ""
    {
      ghost var id := accepted;
      p := new Peer(cert, host, id);
      StepWellFormed(image, Event.Accept(id, cert, host));
      peers, accepted := peers[id := p], accepted + 1;
      image := Step(image, Event.Accept(id, cert, host));
    }

    /** Lines 116-151. */
    method Signin(p: Peer, version: int, user: string, addr: string, reachable: bool) returns (refused: bool)
      requires Valid() && Serves(p)
      modifies this`image, p
      ensures Valid() && refused == SigninRefused(old(image).sessions[p.id], version, user, addr, reachable)
      ensures image == Step(old(image), Event.Signin(p.id, version, user, addr, reachable))
      ensures refused <==>
        version != 1 || user == "" || p.cert.None? || p.cert.value != user || (addr != "" && !reachable)
      ensures refused ==> unchanged(p)
      ensures !refused ==> p.user == user
      ensures !refused && addr == "" ==> p.address == old(p.address) && p.ident == old(p.ident)
      ensures !refused && addr != "" && addr[0] != ':' ==> p.address == addr
      ensures !refused && addr != "" && addr[0] == ':' ==>
        p.address == (if ':' in p.host then "[" + p.host + "]" else p.host) + addr
      ensures !refused && addr != "" ==> p.ident == user + "@" + p.address
    {
      ghost var e := Event.Signin(p.id, version, user, addr, reachable);
      StepWellFormed(image, e);
      image := Step(image, e);
      if version != 1 || user == "" {
        return true;
      }
      if p.cert.None? {
        return true;
      }
      if p.cert.value != user {
        return true;
      }
      if addr != "" {
        var full := addr;
        if addr[0] == ':' {
          full := JoinHostPort(p.host, addr[1..]);
          assert addr == ":" + addr[1..];
        }
        if !reachable {
          return true;
        }
        p.address := full;
        p.ident := IdentOf(user, full);
      }
      p.user := user;
      return false;
    }

    /** Lines 160-164. */
    method HasBadPart(ex: Path) returns (bad: bool)
      ensures bad <==> exists n :: n in ex && (n == "" || n[0] == '.')
    {
      bad := false;
      for i := 0 to |ex|
        invariant forall k :: 0 <= k < i ==> ex[k] != "" && ex[k][0] != '.'
      {
        if |ex[i]| == 0 || ex[i][0] == '.' {
          assert ex[i] in ex;
          return true;
        }
      }
    }

    /** Lines 154-166. */
    method SetFile(p: Peer, path: string, info: Option<FileInfo>) returns (refused: bool)
      requires Valid() && Serves(p)
      modifies this`image, db
      ensures Valid() && refused == SetFileRefused(old(image).sessions[p.id], path)
      ensures image == Step(old(image), Event.SetFile(p.id, path, info))
      ensures refused <==> p.address == "" || exists n :: n in [p.user] + Split(path, '/') && (n == "" || n[0] == '.')
      ensures refused ==> unchanged(db)
      ensures !refused ==> db.fs == Sqlite.SetRow(old(db.fs), [p.user] + Split(path, '/'), info, p.ident)
    {
      ghost var s, e := image.sessions[p.id], Event.SetFile(p.id, path, info);
      assert peers[p.id].Is(s);
      StepWellFormed(image, e);
      if p.address == "" {
        return true;
      }
      var ex := [p.user] + Split(path, '/');
      var bad := HasBadPart(ex);
      RefusedFor(s, path);
      if bad {
        return true;
      }
      assert WellFormed(s);
      PrefixedIsValid(s, path);
      db.SetFile(ex, info, p.ident, false);
      image := Step(image, e);
      return false;
    }

    /** Lines 183-190. */
    method GetOwners(p: Peer, hash: string) returns (r: Option<seq<string>>)
      requires Valid() && Serves(p)
      ensures r.None? <==> image.sessions[p.id].user == ""
      ensures r.Some? ==> Lists(r.value, Sqlite.PeersWith(image.table, hash))
    {
      assert peers[p.id].Is(image.sessions[p.id]);
      if p.user == "" {
        return None;
      }
      var owners := db.GetOwners(hash);
      return Some(owners);
    }

    /** Lines 192-200. */
    method Disconnected(p: Peer)
      requires Valid() && Serves(p)
      modifies this`image, this`peers, db
      ensures Valid() && peers == old(peers) - {p.id}
      ensures image == Step(old(image), Event.Disconnect(p.id))
      ensures p.address == "" ==> unchanged(db)
      ensures p.address != "" ==> forall k :: k in db.fs <==> k in old(db.fs) && k.peer != p.ident
      ensures p.address != "" ==> forall k :: k in db.fs ==> db.fs[k] == old(db.fs)[k]
    {
      ghost var e := Event.Disconnect(p.id);
      assert peers[p.id].Is(image.sessions[p.id]);
      StepWellFormed(image, e);
      if p.address != "" {
        db.PeerDisconnected(p.ident);
      }
      peers := peers - {p.id};
      image := Step(image, e);
    }
  }
}
