/** Delegated path privileges and public paths (ResourceStore.java). */
module Privileges {
  import opened Basics
  import opened Rewriting

  const READ := 1
  const WRITE := 2

  datatype Priv = Priv(path: string, privilege: int)

  datatype PublicRow = PublicRow(owner: string, listing: bool)

  /**
   * The user manager and the two tables. owners: who created a user; oversees: the pairs
   * (u, o) for which u is an administrator or owner of o; app: the name of the web application.
   */
  datatype Db = Db(owners: map<string, string>, admins: set<string>, oversees: set<(string, string)>,
                   rows: map<string, Priv>, publicRows: map<string, PublicRow>,
                   dirListing: bool, protectedRoot: bool, app: string)

  // ---- Owner chains ----

  /** chain lists the owner of u, the owner's owner and so on, up to the first that is an administrator or missing. */
  ghost predicate IsOwnerChain(db: Db, u: string, chain: seq<string>)
    decreases |chain|
  {
    if chain == [] then u !in db.owners || db.owners[u] in db.admins
    else u in db.owners && db.owners[u] !in db.admins && chain[0] == db.owners[u] &&
         IsOwnerChain(db, chain[0], chain[1..])
  }

  lemma {:induction false} ChainOfOwner(db: Db, u: string, chain: seq<string>, i: nat)
    requires IsOwnerChain(db, u, chain) && i < |chain|
    ensures IsOwnerChain(db, chain[i], chain[i + 1..])
    decreases i
  {
    if i > 0 {
      ChainOfOwner(db, chain[0], chain[1..], i - 1);
      assert chain[1..][i - 1..][1..] == chain[i + 1..];
    }
  }

  // ---- Effective paths ----

  ghost predicate HaveRows(db: Db, chain: seq<string>) {
    forall o :: o in chain ==> o in db.rows
  }

  /** The stored paths of the owners, outermost first, each with a slash behind it. */
  ghost function Prefix(db: Db, chain: seq<string>): string
    requires HaveRows(db, chain)
    decreases |chain|
  {
    if chain == [] then "" else Prefix(db, chain[1..]) + db.rows[chain[0]].path + "/"
  }

  /** The path that a stored path p stands for below the owners in chain. */
  ghost function EffectivePath(db: Db, chain: seq<string>, p: string): string
    requires HaveRows(db, chain)
  {
    if chain == [] then p else Scan(Prefix(db, chain) + "/" + p)
  }

  ghost function Effective(db: Db, u: string, chain: seq<string>): Option<Priv> {
    if u in db.rows && HaveRows(db, chain)
    then Some(db.rows[u].(path := EffectivePath(db, chain, db.rows[u].path)))
    else None
  }

  // ---- The way up that getUserPriv takes ----

  /** The owner from whom the loop goes on: not an administrator, and with a row. */
  function Up(db: Db, u: string): Option<string> {
    if u in db.owners && db.owners[u] !in db.admins && db.owners[u] in db.rows then Some(db.owners[u]) else None
  }

  /** The loop fails here: it needs the path of an owner that has no row. */
  predicate Stuck(db: Db, u: string) {
    u in db.owners && db.owners[u] !in db.admins && db.owners[u] !in db.rows
  }

  /** walk lists the owners that the loop visits, up to the point where it stops. */
  ghost predicate IsWalk(db: Db, u: string, walk: seq<string>)
    decreases |walk|
  {
    if walk == [] then Up(db, u).None? else Up(db, u) == Some(walk[0]) && IsWalk(db, walk[0], walk[1..])
  }

  ghost predicate WalkEnds(db: Db, u: string) {
    exists walk :: IsWalk(db, u, walk)
  }

  /** getUserPriv ends for u: it has no row, or the way up has an end. */
  ghost predicate Ends(db: Db, u: string) {
    u in db.rows ==> WalkEnds(db, u)
  }

  function Last(u: string, walk: seq<string>): string {
    if walk == [] then u else walk[|walk| - 1]
  }

  lemma {:induction false} WalkUnique(db: Db, u: string, c: seq<string>, d: seq<string>)
    requires IsWalk(db, u, c) && IsWalk(db, u, d)
    ensures c == d
    decreases |c|
  {
    if c != [] {
      WalkUnique(db, c[0], c[1..], d[1..]);
      assert c == [c[0]] + c[1..] && d == [d[0]] + d[1..];
    }
  }

  lemma {:induction false} WalkRows(db: Db, u: string, walk: seq<string>)
    requires IsWalk(db, u, walk)
    ensures HaveRows(db, walk)
    decreases |walk|
  {
    if walk != [] {
      WalkRows(db, walk[0], walk[1..]);
      assert walk == [walk[0]] + walk[1..];
    }
  }

  /** The privilege of u, with its path below the paths of all owners on the way up. */
  ghost function UserPriv(db: Db, u: string): Option<Priv> {
    if u in db.rows && WalkEnds(db, u) then
      var walk :| IsWalk(db, u, walk);
      WalkRows(db, u, walk);
      if Stuck(db, Last(u, walk)) then None
      else Some(db.rows[u].(path := EffectivePath(db, walk, db.rows[u].path)))
    else None
  }

  lemma UserPrivOf(db: Db, u: string, walk: seq<string>)
    requires IsWalk(db, u, walk)
    ensures HaveRows(db, walk)
    ensures UserPriv(db, u) ==
            if u !in db.rows || Stuck(db, Last(u, walk)) then None
            else Some(db.rows[u].(path := EffectivePath(db, walk, db.rows[u].path)))
  {
    WalkRows(db, u, walk);
    if u in db.rows {
      forall c | IsWalk(db, u, c) ensures c == walk { WalkUnique(db, u, c, walk); }
    }
  }

  /** A way up that does not fail is the chain of all owners, and they all have rows. */
  lemma {:induction false} WalkIsChain(db: Db, u: string, walk: seq<string>)
    ensures IsWalk(db, u, walk) && !Stuck(db, Last(u, walk)) <==> IsOwnerChain(db, u, walk) && HaveRows(db, walk)
    decreases |walk|
  {
    if walk != [] {
      WalkIsChain(db, walk[0], walk[1..]);
      assert walk == [walk[0]] + walk[1..];
      assert Last(u, walk) == Last(walk[0], walk[1..]);
    }
  }

  /** If an owner without a row stands in the chain, the way up ends below the first such owner. */
  lemma {:induction false} ChainStuck(db: Db, u: string, chain: seq<string>) returns (walk: seq<string>)
    requires IsOwnerChain(db, u, chain) && !HaveRows(db, chain)
    ensures IsWalk(db, u, walk) && Stuck(db, Last(u, walk))
    decreases |chain|
  {
    walk := [];
    if chain[0] in db.rows {
      assert chain == [chain[0]] + chain[1..];
      var rest := ChainStuck(db, chain[0], chain[1..]);
      walk := [chain[0]] + rest;
      assert walk[1..] == rest && Last(u, walk) == Last(chain[0], rest);
    }
  }

  /** What getUserPriv answers for a user whose chain of owners has an end. */
  lemma EffectiveOf(db: Db, u: string, chain: seq<string>)
    requires IsOwnerChain(db, u, chain)
    ensures Ends(db, u) && UserPriv(db, u) == Effective(db, u, chain)
  {
    if HaveRows(db, chain) {
      WalkIsChain(db, u, chain);
      UserPrivOf(db, u, chain);
    } else {
      var walk := ChainStuck(db, u, chain);
      UserPrivOf(db, u, walk);
    }
  }

  method GetUserPriv(db: Db, u: string) returns (nvp: Option<Priv>)
    requires Ends(db, u)
    ensures nvp == UserPriv(db, u)
    ensures forall chain :: IsOwnerChain(db, u, chain) ==> nvp == Effective(db, u, chain)
  {
    forall chain | IsOwnerChain(db, u, chain) ensures UserPriv(db, u) == Effective(db, u, chain) {
      EffectiveOf(db, u, chain);
    }
    if u !in db.rows {
      return None;
    }
    ghost var walk :| IsWalk(db, u, walk);
    UserPrivOf(db, u, walk);
    var row := db.rows[u];
    var path2: Option<string> := None;
    var username := u;
    ghost var i := 0;
    assert walk[..0] == [] && walk[0..] == walk;
    while true
      invariant 0 <= i <= |walk| && IsWalk(db, username, walk[i..]) && username == Last(u, walk[..i])
      invariant HaveRows(db, walk[..i])
      invariant path2 == if i == 0 then None else Some(Prefix(db, walk[..i]))
      decreases |walk| - i
    {
      if username !in db.owners {
        break;
      }
      username := db.owners[username];
      if username in db.admins {
        break;
      }
      if path2.None? {
        path2 := Some("");
      }
      if username !in db.rows {
        assert walk[..i] == walk;
        return None;
      }
      assert walk[i..][0] == username && walk[i..][1..] == walk[i + 1..];
      assert walk[..i + 1] == walk[..i] + [username];
      PrefixMore(db, walk[..i], username);
      path2 := Some(db.rows[username].path + "/" + path2.value);
      i := i + 1;
    }
    assert walk[..i] == walk;
    if path2.Some? {
      var full := Normalize(path2.value + "/" + row.path);
      row := row.(path := full);
    }
    nvp := Some(row);
  }

  // ---- When the loop ends ----

  /** Where the loop of getUserPriv stands. */
  datatype Loop = Running(username: string) | Broke | Failed

  function Turn(db: Db, l: Loop): Loop
    requires l.Running?
  {
    if l.username !in db.owners || db.owners[l.username] in db.admins then Broke
    else if db.owners[l.username] !in db.rows then Failed
    else Running(db.owners[l.username])
  }

  function Turns(db: Db, l: Loop, n: nat): Loop
    decreases n
  {
    if n == 0 || !l.Running? then l else Turns(db, Turn(db, l), n - 1)
  }

  lemma {:induction false} TurnsOut(db: Db, l: Loop, n: nat) returns (walk: seq<string>)
    requires l.Running? && !Turns(db, l, n).Running?
    ensures IsWalk(db, l.username, walk)
    decreases n
  {
    walk := [];
    var t := Turn(db, l);
    if t.Running? {
      var rest := TurnsOut(db, t, n - 1);
      walk := [t.username] + rest;
      assert walk[1..] == rest;
    }
  }

  lemma {:induction false} WalkTurns(db: Db, l: Loop, walk: seq<string>)
    requires l.Running? && IsWalk(db, l.username, walk)
    ensures !Turns(db, l, |walk| + 1).Running?
    decreases |walk|
  {
    if walk != [] {
      WalkTurns(db, Turn(db, l), walk[1..]);
    }
  }

  /** The loop ends after some number of turns exactly if the way up has an end. */
  lemma LoopEndsIff(db: Db, u: string)
    ensures (exists n: nat :: !Turns(db, Running(u), n).Running?) <==> WalkEnds(db, u)
  {
    var l := Running(u);
    if n: nat :| !Turns(db, l, n).Running? {
      var walk := TurnsOut(db, l, n);
    }
    if walk :| IsWalk(db, u, walk) {
      WalkTurns(db, l, walk);
    }
  }

  /** path goes up from u, from owner to owner. */
  ghost predicate Climb(db: Db, u: string, path: seq<string>)
    decreases |path|
  {
    path == [] || (Up(db, u) == Some(path[0]) && Climb(db, path[0], path[1..]))
  }

  ghost predicate Repeats(path: seq<string>) {
    exists i, j :: 0 <= i < j < |path| && path[i] == path[j]
  }

  lemma {:induction false} ClimbStep(db: Db, u: string, path: seq<string>, i: nat)
    requires Climb(db, u, path) && i < |path|
    ensures Climb(db, path[i], path[i + 1..]) && path[i] in db.rows
    decreases i
  {
    if i > 0 {
      ClimbStep(db, path[0], path[1..], i - 1);
      assert path[1..][i..] == path[i + 1..];
    }
  }

  /** What is climbed is a part of the way up, if that has an end. */
  lemma {:induction false} ClimbOnWalk(db: Db, u: string, path: seq<string>, walk: seq<string>)
    requires Climb(db, u, path) && IsWalk(db, u, walk)
    ensures path <= walk && IsWalk(db, Last(u, path), walk[|path|..])
    decreases |path|
  {
    if path != [] {
      ClimbOnWalk(db, path[0], path[1..], walk[1..]);
      assert path == [path[0]] + path[1..] && walk == [walk[0]] + walk[1..];
      assert walk[1..][|path| - 1..] == walk[|path|..];
    }
  }

  lemma ClimbNoRepeat(db: Db, u: string, path: seq<string>, walk: seq<string>, i: nat, j: nat)
    requires Climb(db, u, path) && IsWalk(db, u, walk) && i < j < |path|
    ensures path[i] != path[j]
  {
    ClimbPrefix(db, u, path, i + 1);
    ClimbPrefix(db, u, path, j + 1);
    ClimbOnWalk(db, u, path[..i + 1], walk);
    ClimbOnWalk(db, u, path[..j + 1], walk);
    if path[i] == path[j] {
      WalkUnique(db, path[i], walk[i + 1..], walk[j + 1..]);
    }
  }

  lemma {:induction false} ClimbPrefix(db: Db, u: string, path: seq<string>, n: nat)
    requires Climb(db, u, path) && n <= |path|
    ensures Climb(db, u, path[..n])
    decreases n
  {
    if n > 0 {
      ClimbPrefix(db, path[0], path[1..], n - 1);
      assert path[..n][1..] == path[1..][..n - 1];
    }
  }

  lemma {:induction false} ClimbOn(db: Db, u: string, n: nat) returns (path: seq<string>)
    requires !WalkEnds(db, u)
    ensures Climb(db, u, path) && |path| == n
    decreases n
  {
    path := [];
    if n > 0 {
      assert !IsWalk(db, u, []);
      var o := Up(db, u).value;
      if walk :| IsWalk(db, o, walk) {
        assert ([o] + walk)[1..] == walk;
        assert IsWalk(db, u, [o] + walk);
      }
      var rest := ClimbOn(db, o, n - 1);
      path := [o] + rest;
      assert path[1..] == rest;
    }
  }

  lemma {:induction false} Pigeonhole(path: seq<string>, users: set<string>)
    requires |path| > |users| && forall o :: o in path ==> o in users
    ensures Repeats(path)
    decreases |path|
  {
    var n := |path| - 1;
    if i :| 0 <= i < n && path[i] == path[n] {
    } else {
      forall o | o in path[..n] ensures o in users - {path[n]} {
        var k :| 0 <= k < n && path[k] == o;
      }
      Pigeonhole(path[..n], users - {path[n]});
      var i, j :| 0 <= i < j < n && path[..n][i] == path[..n][j];
      assert path[i] == path[j];
    }
  }

  /**
   * The loop of getUserPriv runs forever exactly if the user has a row and the way up comes to
   * some owner twice. It never goes up more owners than there are rows otherwise.
   */
  lemma EndsIff(db: Db, u: string)
    ensures Ends(db, u) <==> u !in db.rows || forall path :: Climb(db, u, path) ==> !Repeats(path)
  {
    if walk :| IsWalk(db, u, walk) {
      forall path | Climb(db, u, path) ensures !Repeats(path) {
        if Repeats(path) {
          var i, j :| 0 <= i < j < |path| && path[i] == path[j];
          ClimbNoRepeat(db, u, path, walk, i, j);
        }
      }
    } else {
      var path := ClimbOn(db, u, |db.rows.Keys| + 1);
      forall o | o in path ensures o in db.rows.Keys {
        var i :| 0 <= i < |path| && path[i] == o;
        ClimbStep(db, u, path, i);
      }
      Pigeonhole(path, db.rows.Keys);
    }
  }

  /** Two users with rows that own each other: the loop does not end. */
  lemma EndlessCycle(db: Db, a: string, b: string)
    requires a in db.rows && b in db.rows && a !in db.admins && b !in db.admins
    requires a in db.owners && db.owners[a] == b && b in db.owners && db.owners[b] == a
    ensures !Ends(db, a)
    ensures forall n: nat :: Turns(db, Running(a), n).Running?
  {
    var path := [b, a, b];
    assert path[1..] == [a, b] && path[1..][1..] == [b] && path[1..][1..][1..] == [];
    assert Climb(db, b, [a, b]) && path[0] == path[2];
    assert Repeats(path);
    EndsIff(db, a);
    LoopEndsIff(db, a);
  }

  /** A cycle with an owner that has no row: the loop fails there, and ends. */
  lemma CycleEnds(db: Db, u: string, a: string, b: string)
    requires u in db.owners && db.owners[u] == a && a in db.rows && a !in db.admins
    requires a in db.owners && db.owners[a] == b && b !in db.rows && b !in db.admins
    ensures Ends(db, u) && UserPriv(db, u) == None
  {
    assert [a][1..] == [];
    assert Last(u, [a]) == a && Up(db, a).None?;
    assert IsWalk(db, u, [a]) && Stuck(db, a);
    UserPrivOf(db, u, [a]);
  }

  /** One more owner puts its path in front. */
  lemma {:induction false} PrefixMore(db: Db, chain: seq<string>, o: string)
    requires HaveRows(db, chain) && o in db.rows
    ensures HaveRows(db, chain + [o])
    ensures Prefix(db, chain + [o]) == db.rows[o].path + "/" + Prefix(db, chain)
    decreases |chain|
  {
    if chain == [] {
      assert chain + [o] == [o] && [o][1..] == [];
      assert Prefix(db, [o]) == "" + db.rows[o].path + "/";
    } else {
      assert (chain + [o])[1..] == chain[1..] + [o];
      assert HaveRows(db, chain[1..]);
      PrefixMore(db, chain[1..], o);
    }
  }

  lemma {:induction false} PrefixSplit(db: Db, chain: seq<string>, i: nat) returns (rest: string)
    requires HaveRows(db, chain) && i <= |chain|
    ensures HaveRows(db, chain[i..]) && Prefix(db, chain) == Prefix(db, chain[i..]) + rest
    decreases i
  {
    rest := "";
    if i == 0 {
      assert chain[0..] == chain;
    } else {
      assert chain[1..][i - 1..] == chain[i..];
      rest := PrefixSplit(db, chain[1..], i - 1);
      rest := rest + db.rows[chain[0]].path + "/";
    }
  }

  // ---- Containment ----

  /** What is scanned after a slash never reaches back across it. */
  lemma {:induction false} ScanBeyond(base: string, st: string, s: string)
    requires EndsIn(base, '/') && base <= st
    ensures base <= ScanFrom(st, s)
    decreases |s|
  {
    if s != "" {
      assert base <= Push(st, s[0]);
      ScanBeyond(base, Push(st, s[0]), s[1..]);
    }
  }

  lemma ScanSlash(a: string)
    ensures Scan(a + "/") == Push(Scan(a), '/')
    ensures Scan(a + "/" + "/") == Scan(a + "/")
  {
    ScanConcat("", a, "/");
    ScanConcat("", a + "/", "/");
    ScanTwo(Scan(a), '/', '/');
    ScanTwo(Scan(a + "/"), '/', '/');
  }

  /** Scanning an owner's prefix equals scanning the owner's effective path with a slash behind it. */
  lemma OwnerBase(db: Db, chain: seq<string>)
    requires chain != [] && HaveRows(db, chain)
    ensures HaveRows(db, chain[1..])
    ensures Scan(Prefix(db, chain)) == Scan(EffectivePath(db, chain[1..], db.rows[chain[0]].path) + "/")
  {
    var q := db.rows[chain[0]].path;
    var up := Prefix(db, chain[1..]);
    assert forall o :: o in chain[1..] ==> o in chain;
    ScanSlash(up + q);
    if chain[1..] == [] {
      assert up + q == q;
    } else {
      PrefixEnds(db, chain[1..]);
      var v := up[..|up| - 1];
      assert up == v + "/";
      ScanSlash(v);
      ScanPrefix(up + "/", q);
      ScanPrefix(up, q);
      ScanPrefix(up + "/" + q, "/");
      ScanPrefix(up + q, "/");
    }
  }

  lemma PrefixEnds(db: Db, chain: seq<string>)
    requires chain != [] && HaveRows(db, chain)
    ensures EndsIn(Prefix(db, chain), '/')
  {
  }

  /**
   * Containment: below every non-administrator owner whose effective path can be followed by a
   * slash, whatever the stored paths of the user and of the owners in between.
   */
  lemma DelegationContained(db: Db, u: string, chain: seq<string>, i: nat, p: string)
    requires IsOwnerChain(db, u, chain) && i < |chain| && HaveRows(db, chain)
    requires HaveRows(db, chain[i + 1..])
    requires IsNormal(EffectivePath(db, chain[i + 1..], db.rows[chain[i]].path) + "/")
    ensures EffectivePath(db, chain[i + 1..], db.rows[chain[i]].path) + "/" <= EffectivePath(db, chain, p)
  {
    var e := EffectivePath(db, chain[i + 1..], db.rows[chain[i]].path);
    var rest := PrefixSplit(db, chain, i);
    assert chain[i..][1..] == chain[i + 1..];
    OwnerBase(db, chain[i..]);
    ScanOfNormal(e + "/");
    var base := Prefix(db, chain[i..]);
    assert Prefix(db, chain) + "/" + p == base + (rest + "/" + p);
    ScanConcat("", base, rest + "/" + p);
    ScanBeyond(e + "/", e + "/", rest + "/" + p);
  }

  lemma EffectiveNormal(db: Db, chain: seq<string>, p: string)
    requires chain != [] && HaveRows(db, chain)
    ensures IsNormal(EffectivePath(db, chain, p))
  {
    ScanFromNormal("", Prefix(db, chain) + "/" + p);
  }

  lemma NormalPrefix(s: string, t: string)
    requires s <= t && IsNormal(t)
    ensures IsNormal(s)
  {
    forall i | 0 <= i < |s| - 1 ensures !Pair(s, i) { assert !Pair(t, i); }
  }

  /** The condition is exact, for every owner in the chain and for every single stored path. */
  lemma DelegationIff(db: Db, u: string, chain: seq<string>, i: nat, p: string)
    requires IsOwnerChain(db, u, chain) && i < |chain| && HaveRows(db, chain) && HaveRows(db, chain[i + 1..])
    ensures var e := EffectivePath(db, chain[i + 1..], db.rows[chain[i]].path);
      e + "/" <= EffectivePath(db, chain, p) <==> IsNormal(e + "/")
  {
    var e := EffectivePath(db, chain[i + 1..], db.rows[chain[i]].path);
    if IsNormal(e + "/") {
      DelegationContained(db, u, chain, i, p);
    } else if e + "/" <= EffectivePath(db, chain, p) {
      EffectiveNormal(db, chain, p);
      NormalPrefix(e + "/", EffectivePath(db, chain, p));
    }
  }

  /**
   * What getUserPriv answers, from one user to the next: nothing without a row, the stored row
   * below no owner or an administrator, and else the stored path below the path that it answers
   * for the owner, with the privilege of the row.
   */
  lemma UserPrivStep(db: Db, u: string)
    requires Ends(db, u)
    ensures u !in db.rows ==> UserPriv(db, u) == None
    ensures u in db.rows && (u !in db.owners || db.owners[u] in db.admins) ==> UserPriv(db, u) == Some(db.rows[u])
    ensures u in db.rows && u in db.owners && db.owners[u] !in db.admins ==>
              var o := UserPriv(db, db.owners[u]);
              UserPriv(db, u) == if o.None? then None
                                 else Some(Priv(Scan(o.value.path + "/" + db.rows[u].path), db.rows[u].privilege))
  {
    if u in db.rows {
      var walk :| IsWalk(db, u, walk);
      UserPrivOf(db, u, walk);
      if walk != [] {
        UserPrivOf(db, walk[0], walk[1..]);
        assert walk[0] in walk;
        OwnerBelow(db, walk, db.rows[u].path);
      }
    }
  }

  lemma OwnerBelow(db: Db, chain: seq<string>, p: string)
    requires chain != [] && HaveRows(db, chain) && HaveRows(db, chain[1..])
    ensures EffectivePath(db, chain, p) == Scan(EffectivePath(db, chain[1..], db.rows[chain[0]].path) + "/" + p)
  {
    OwnerBase(db, chain);
    ScanOnSlash(Prefix(db, chain), EffectivePath(db, chain[1..], db.rows[chain[0]].path), p);
  }

  lemma ScanOnSlash(a: string, e: string, p: string)
    requires Scan(a) == Scan(e + "/")
    ensures Scan(a + "/" + p) == Scan(e + "/" + p)
  {
    ScanConcat("", a, "/");
    ScanConcat("", e + "/", "/");
    ScanSlash(e);
    ScanConcat("", a + "/", p);
    ScanConcat("", e + "/", p);
  }

  /** A stored path an administrator would write: normal, not empty, no slash at either end. */
  predicate Clean(q: string) {
    q != "" && IsNormal(q) && q[0] != '/' && q[|q| - 1] != '/'
  }

  /** An owner with a clean stored path meets the condition, whatever is above it. */
  lemma CleanSuffices(db: Db, chain: seq<string>, q: string)
    requires HaveRows(db, chain) && Clean(q)
    ensures IsNormal(EffectivePath(db, chain, q) + "/")
  {
    var e := EffectivePath(db, chain, q);
    var b := Prefix(db, chain);
    if chain != [] {
      PrefixEnds(db, chain);
      ScanConcat("", b + "/", q);
      var st := Scan(b + "/");
      ScanFromNormal("", b + "/");
      ScanSlash(b);
      assert EndsIn(st, '/');
      var t := st + q;
      assert t[|st| - 1] == '/' && t[|st|] == q[0];
      forall i | 0 <= i < |t| - 1 ensures !Pair(t, i) {
        if i < |st| - 1 {
          assert !Pair(st, i);
        } else if i >= |st| {
          assert !Pair(q, i - |st|);
        }
      }
      ScanKeeps(st, q);
    }
    var t := e + "/";
    forall i | 0 <= i < |t| - 1 ensures !Pair(t, i) {
      if i < |e| - 1 { assert !Pair(e, i); }
    }
  }

  /** The region check of `lookup`. */
  predicate Admits(root: string, path: string) {
    "/" + root + "/" <= path || "/" + root + "/" <= path + "/"
  }

  /** A region inside another admits fewer paths. */
  lemma AdmitsInside(e: string, f: string, path: string)
    requires e + "/" <= f && Admits(f, path)
    ensures Admits(e, path)
  {
    assert f[..|e| + 1] == e + "/";
    assert ("/" + f + "/")[..|e| + 2] == "/" + e + "/";
  }

  /** A user stored as "x" reaches a path that an owner's region admits only if the condition holds. */
  lemma ProbePath(db: Db, chain: seq<string>, e: string)
    requires chain != [] && HaveRows(db, chain)
    ensures var f := EffectivePath(db, chain, "x"); Admits(f, "/" + f) && (Admits(e, "/" + f) ==> IsNormal(e + "/"))
  {
    var b := Prefix(db, chain) + "/";
    var f := EffectivePath(db, chain, "x");
    ScanConcat("", b, "x");
    assert ScanFrom(Scan(b), "x") == Push(Scan(b), 'x') by { ScanTwo(Scan(b), 'x', 'x'); }
    ScanFromNormal("", b + "x");
    assert f[|f| - 1] == 'x';
    forall i | 0 <= i < |f + "/"| - 1 ensures !Pair(f + "/", i) {
      if i < |f| - 1 { assert !Pair(f, i); }
    }
    assert "/" + f + "/" == "/" + (f + "/");
    if Admits(e, "/" + f) {
      assert ("/" + f + "/")[..|e| + 2] == "/" + e + "/";
      assert (f + "/")[..|e| + 1] == ("/" + f + "/")[1..|e| + 2] == ("/" + e + "/")[1..] == e + "/";
      NormalPrefix(e + "/", f + "/");
    }
  }

  /**
   * The same for the region check: an owner's region admits everything that the regions of its
   * users admit, whatever their stored paths, if and only if the owner meets the condition.
   */
  lemma RegionIff(db: Db, u: string, chain: seq<string>, i: nat)
    requires IsOwnerChain(db, u, chain) && i < |chain| && HaveRows(db, chain) && HaveRows(db, chain[i + 1..])
    ensures var e := EffectivePath(db, chain[i + 1..], db.rows[chain[i]].path);
      (forall p, path :: Admits(EffectivePath(db, chain, p), path) ==> Admits(e, path)) <==> IsNormal(e + "/")
  {
    var e := EffectivePath(db, chain[i + 1..], db.rows[chain[i]].path);
    if IsNormal(e + "/") {
      forall p, path | Admits(EffectivePath(db, chain, p), path) ensures Admits(e, path) {
        DelegationContained(db, u, chain, i, p);
        AdmitsInside(e, EffectivePath(db, chain, p), path);
      }
    } else {
      ProbePath(db, chain, e);
    }
  }

  /** Every path the region check admits for a user it also admits for each owner with a clean path. */
  lemma RegionContained(db: Db, u: string, chain: seq<string>, i: nat, path: string)
    requires IsOwnerChain(db, u, chain) && i < |chain| && Effective(db, u, chain).Some?
    requires Clean(db.rows[chain[i]].path)
    requires Admits(Effective(db, u, chain).value.path, path)
    ensures Effective(db, chain[i], chain[i + 1..]).Some?
    ensures Admits(Effective(db, chain[i], chain[i + 1..]).value.path, path)
  {
    assert forall o :: o in chain[i + 1..] ==> o in chain;
    assert chain[i] in chain;
    CleanSuffices(db, chain[i + 1..], db.rows[chain[i]].path);
    DelegationContained(db, u, chain, i, db.rows[u].path);
    AdmitsInside(Effective(db, chain[i], chain[i + 1..]).value.path, Effective(db, u, chain).value.path, path);
  }

  /** Without the condition it can fail: an owner stored as "a/" has the region "/a//", its users "/a/...". */
  lemma SlashEscapes(db: Db)
    requires db.owners == map["u" := "o"] && db.admins == {}
    requires db.rows == map["o" := Priv("a/", WRITE), "u" := Priv("b", WRITE)]
    ensures IsOwnerChain(db, "u", ["o"])
    ensures Admits(EffectivePath(db, ["o"], "b"), "/a/b/c")
    ensures !Admits(EffectivePath(db, [], "a/"), "/a/b/c")
  {
    assert ["o"][1..] == [];
    assert Prefix(db, ["o"]) == "" + "a/" + "/";
    var st := "a/b";
    assert IsNormal(st);
    assert EffectivePath(db, ["o"], "b") == st by {
      ReplaceSlashes();
    }
    assert "/" + st + "/" <= "/a/b/c";
    assert ("/" + "a/" + "/")[3] == '/' && "/a/b/c"[3] == 'b' && ("/a/b/c" + "/")[3] == 'b';
  }

  lemma ReplaceSlashes()
    ensures Scan("" + "a/" + "/" + "/" + "b") == "a/b"
  {
    assert "" + "a/" + "/" + "/" + "b" == "a///b";
    assert "a///b"[1..] == "///b" && "///b"[1..] == "//b" && "//b"[1..] == "/b" && "/b"[1..] == "b" && "b"[1..] == "";
    assert ScanFrom("", "a///b") == ScanFrom("a", "///b");
    assert ScanFrom("a", "///b") == ScanFrom("a/", "//b");
    assert ScanFrom("a/", "//b") == ScanFrom("a/", "/b");
    assert ScanFrom("a/", "/b") == ScanFrom("a/", "b");
    assert ScanFrom("a/", "b") == ScanFrom("a/b", "");
  }
}
