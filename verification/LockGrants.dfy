/** What a granted lock is good for, and what doLock does not look at (doLock, isLocked, doUnlock1). */
module LockGrants {
  import opened LockTable
  import opened Rewriting

  /** A refresh renews unexpired locks only. */
  ghost predicate RenewsLive(t: Table, e: Event, now: int) {
    e.Refresh? ==> forall l :: l in t.locks && Renews(l, e) ==> !l.Expired(now)
  }

  ghost predicate RunRenewsLive(t: Table, es: seq<Timed>)
    decreases |es|
  {
    es == [] || (RenewsLive(t, es[0].event, es[0].at) && RunRenewsLive(Step(t, es[0].event, es[0].at), es[1..]))
  }

  // ---- Granted locks stay and stop requests ----

  /** A token that a creation handed out, with the number, path and scope of its lock. */
  datatype Grant = Grant(id: nat, path: string, scope: string, token: string)

  predicate Holds(l: Lock, g: Grant) {
    l.id == g.id && l.path == g.path && l.scope == g.scope && g.token in l.tokens
  }

  predicate InTable(locks: seq<Lock>, g: Grant) {
    exists l :: l in locks && Holds(l, g)
  }

  /** The lock has not expired. */
  predicate Lasts(locks: seq<Lock>, g: Grant, now: int) {
    forall l :: l in locks && Holds(l, g) ==> !l.Expired(now)
  }

  /** An UNLOCK of the path that sends the token. */
  predicate GivesBack(e: Event, g: Grant) {
    e.Unlock? && e.path == g.path && Occurs(e.tokenHeader, g.token)
  }

  lemma CheckedStays(t: Table, path: string, header: string, now: int, g: Grant)
    requires InTable(t.locks, g) && Lasts(t.locks, g, now)
    ensures InTable(Checked(t, path, header, now).locks, g)
  {
    WalkKeepsLive(t.locks, path, header, now);
    LiveMembers(t.locks, now);
    LiveMembers(Checked(t, path, header, now).locks, now);
  }

  lemma DroppedKeeps(tokens: seq<string>, header: string, token: string)
    requires token in tokens && !Occurs(header, token)
    ensures token in Dropped(tokens, header)
  {
    var j := DroppedExact(tokens, header);
    var x :| 0 <= x < |tokens| && tokens[x] == token;
    if j < |tokens| {
      assert Dropped(tokens, header)[if x < j then x else x - 1] == token;
    }
  }

  lemma ReleasedStays(locks: seq<Lock>, path: string, tokenHeader: string, g: Grant)
    requires InTable(locks, g) && !(g.path == path && Occurs(tokenHeader, g.token))
    ensures InTable(Released(locks, path, tokenHeader), g)
  {
    var l :| l in locks && Holds(l, g);
    var k :| 0 <= k < |locks| && locks[k] == l;
    var i := Find(locks, path);
    var r := Released(locks, path, tokenHeader);
    if i == |locks| {
      assert l in r;
    } else if k == i {
      DroppedKeeps(l.tokens, tokenHeader, g.token);
      assert r[i] in r && Holds(r[i], g);
    } else if Dropped(locks[i].tokens, tokenHeader) == [] {
      assert r[if k < i then k else k - 1] == l;
    } else {
      assert r[k] == l;
    }
  }

  lemma CreatedStays(t: Table, e: Event, now: int, g: Grant)
    requires InTable(t.locks, g) && e.Create?
    ensures InTable(Created(t, e, now).1.locks, g)
  {
    var l :| l in t.locks && Holds(l, g);
    var k :| 0 <= k < |t.locks| && t.locks[k] == l;
    var u := Created(t, e, now).1;
    assert u.locks[k] in u.locks && Holds(u.locks[k], g);
  }

  lemma RefreshedStays(locks: seq<Lock>, e: Event, g: Grant)
    requires InTable(locks, g) && e.Refresh?
    ensures InTable(Refreshed(locks, e), g)
  {
    var l :| l in locks && Holds(l, g);
    var k :| 0 <= k < |locks| && locks[k] == l;
    var r := Refreshed(locks, e);
    assert r[k] in r && Holds(r[k], g);
  }

  lemma StepStays(t: Table, e: Event, now: int, g: Grant)
    requires InTable(t.locks, g) && Lasts(t.locks, g, now) && !GivesBack(e, g)
    ensures InTable(Step(t, e, now).locks, g)
  {
    match e
    case Create(_, _, _, _, _) => CreatedStays(t, e, now, g);
    case Refresh(_, _, _) => RefreshedStays(t.locks, e, g);
    case Check(path, header) => CheckedStays(t, path, header, now, g);
    case Unlock(path, header, tokenHeader) =>
      CheckedStays(t, path, header, now, g);
      ReleasedStays(Checked(t, path, header, now).locks, path, tokenHeader, g);
  }

  /** Every request of the run finds the lock unexpired, and none gives the token back. */
  ghost predicate Undisturbed(t: Table, es: seq<Timed>, g: Grant)
    decreases |es|
  {
    es == [] ||
    (Lasts(t.locks, g, es[0].at) && !GivesBack(es[0].event, g) &&
     Undisturbed(Step(t, es[0].event, es[0].at), es[1..], g))
  }

  /** A granted lock, shared or exclusive, stays in the table until it expires or its token is given back. */
  lemma {:induction false} GrantStays(t: Table, es: seq<Timed>, g: Grant)
    requires InTable(t.locks, g) && Undisturbed(t, es, g)
    ensures InTable(Run(t, es).locks, g)
    decreases |es|
  {
    if es != [] {
      StepStays(t, es[0].event, es[0].at, g);
      GrantStays(Step(t, es[0].event, es[0].at), es[1..], g);
    }
  }

  /** A lock that blocks the request at position k: isLocked answers true if it sees it, or another. */
  lemma WalkAround(locks: seq<Lock>, k: nat, path: string, header: string, now: int)
    requires k < |locks| && locks[k].Blocks(path, header, now)
    ensures Walk(locks, path, header, now).0 <==>
              ExpiredRun(locks, k, now) % 2 == 0 || exists j: nat :: j != k && StoppedAt(locks, j, path, header, now)
  {
    WalkIff(locks, path, header, now);
    if ExpiredRun(locks, k, now) % 2 == 0 {
      assert StoppedAt(locks, k, path, header, now);
    }
  }

  /** In a table of the right shape an exclusive lock has no token but the one it was granted for. */
  lemma GrantAt(t: Table, g: Grant) returns (k: nat)
    requires Shape(t) && InTable(t.locks, g) && g.scope == "exclusive"
    ensures k < |t.locks| && Holds(t.locks[k], g) && t.locks[k].tokens == [g.token]
  {
    var l :| l in t.locks && Holds(l, g);
    k :| 0 <= k < |t.locks| && t.locks[k] == l;
    assert WellFormed(l);
  }

  lemma GrantMade(t: Table, e: Event, now: int)
    requires Shape(t) && e.Create? && e.collection && e.scope == "exclusive" && Created(t, e, now).0 == OK
    ensures InTable(Step(t, e, now).locks, Grant(t.next, e.path, e.scope, e.token))
  {
    var u := Step(t, e, now);
    var n := u.locks[|u.locks| - 1];
    assert n in u.locks && Holds(n, Grant(t.next, e.path, e.scope, e.token));
  }

  /**
   * What a granted exclusive lock does, in every run after the grant that does not give its token
   * back, for a request that lacks the token below its path: while it is unexpired it stands at a
   * position k of the table, and isLocked stops the request if and only if an even number of
   * expired locks stands directly before k, or another lock that isLocked sees stops it. Asking
   * until nothing is removed always stops it.
   */
  lemma GrantProtects(t: Table, e: Event, now: int, es: seq<Timed>, path: string, header: string, later: int)
    returns (k: nat)
    requires Shape(t) && e.Create? && e.collection && e.scope == "exclusive" && Created(t, e, now).0 == OK
    requires e.path <= path && !Occurs(header, e.token)
    requires Undisturbed(Step(t, e, now), es, Grant(t.next, e.path, e.scope, e.token))
    requires Lasts(Run(Step(t, e, now), es).locks, Grant(t.next, e.path, e.scope, e.token), later)
    ensures var locks := Run(Step(t, e, now), es).locks;
      k < |locks| && locks[k].id == t.next && locks[k].tokens == [e.token] &&
      (Walk(locks, path, header, later).0 <==>
        ExpiredRun(locks, k, later) % 2 == 0 || exists j: nat :: j != k && StoppedAt(locks, j, path, header, later)) &&
      Settle(locks, path, header, later).1
  {
    var g := Grant(t.next, e.path, e.scope, e.token);
    GrantMade(t, e, now);
    GrantStays(Step(t, e, now), es, g);
    StepShape(t, e, now);
    RunShape(Step(t, e, now), es);
    var v := Run(Step(t, e, now), es);
    k := GrantAt(v, g);
    assert v.locks[k] in v.locks && v.locks[k].Blocks(path, header, later);
    WalkAround(v.locks, k, path, header, later);
  }

  /**
   * A live exclusive lock that isLocked does not see: the expired lock before it in the table is
   * removed, and the enumeration steps over it.
   */
  lemma SteppedOver()
    ensures var es := [Timed(Create("/x", "shared", "s", 10, true), 0),
                       Timed(Create("/a", "exclusive", "t", 100, true), 5)];
      Ordered(0, es) && RunRenewsLive(EMPTY, es) &&
      Locked(Run(EMPTY, es).locks, "/a/b", "", 50) && !Walk(Run(EMPTY, es).locks, "/a/b", "", 50).0
  {
    var e0, e1 := Create("/x", "shared", "s", 10, true), Create("/a", "exclusive", "t", 100, true);
    var a, b := Lock(0, "/x", "shared", ["s"], 10, 0), Lock(1, "/a", "exclusive", ["t"], 100, 5);
    var es := [Timed(e0, 0), Timed(e1, 5)];
    assert Find([], "/x") == 0;
    assert Step(EMPTY, e0, 0) == Table([a], {}, 1);
    Second(a, b);
    assert Step(Table([a], {}, 1), e1, 5) == Table([a, b], {}, 2);
    assert es[1..] == [Timed(e1, 5)] && es[1..][1..] == [];
    assert Run(EMPTY, es) == Run(Table([a], {}, 1), es[1..]);
    assert Run(Table([a], {}, 1), es[1..]) == Run(Table([a, b], {}, 2), es[1..][1..]);
    BehindExpired(a, b, "/a/b", "", 50);
    assert b in [a, b] && b.Blocks("/a/b", "", 50);
  }

  lemma Second(a: Lock, b: Lock)
    requires a.path != b.path
    ensures Find([a], b.path) == 1 && [a] + [b] == [a, b]
  {
    assert [a][1..] == [];
    assert Find([a], b.path) == 1 + Find([], b.path);
  }

  /** isLocked never sees the lock behind an expired first one. */
  lemma BehindExpired(a: Lock, b: Lock, path: string, header: string, now: int)
    requires a.Expired(now)
    ensures Walk([a, b], path, header, now) == (false, [b])
  {
    assert [a, b][2..] == [] && [b] + [] == [b];
  }

  // ---- Locks above the requested path ----

  /** Of two live locks of which one is on a prefix of the other's path, neither is exclusive. */
  ghost predicate Compatible(locks: seq<Lock>, now: int) {
    forall a, b :: a in locks && b in locks && Overlap(a, b, now) ==> !a.Exclusive() && !b.Exclusive()
  }

  ghost predicate Overlap(a: Lock, b: Lock, now: int) {
    a != b && a.path <= b.path && !a.Expired(now) && !b.Expired(now)
  }

  /** No live lock above the path of the request is exclusive or meets an exclusive request. */
  ghost predicate ClearAbove(locks: seq<Lock>, e: Event, now: int)
    requires e.Create?
  {
    forall a :: a in locks && !a.Expired(now) && a.path <= e.path ==> !a.Exclusive() && e.scope != "exclusive"
  }

  /**
   * doLock does not look upwards. What a grant leaves is compatible if and only if it added a token
   * to a lock that was there, or a lock that is over already, or there is nothing against it above.
   */
  lemma GrantCompatibleIff(t: Table, e: Event, now: int)
    requires Shape(t) && Compatible(t.locks, now) && e.Create? && e.collection && Created(t, e, now).0 == OK
    ensures Compatible(Created(t, e, now).1.locks, now) <==>
            Find(t.locks, e.path) < |t.locks| || e.expiresAt < now || ClearAbove(t.locks, e, now)
  {
    if Find(t.locks, e.path) < |t.locks| {
      JoinCompatible(t, e, now);
    } else {
      AddedCompatible(t, e, now);
    }
  }

  lemma AddedCompatible(t: Table, e: Event, now: int)
    requires Shape(t) && Compatible(t.locks, now) && e.Create? && e.collection && Created(t, e, now).0 == OK
    requires Find(t.locks, e.path) == |t.locks|
    ensures Compatible(Created(t, e, now).1.locks, now) <==> e.expiresAt < now || ClearAbove(t.locks, e, now)
  {
    var u := Created(t, e, now).1;
    var n := u.locks[|t.locks|];
    assert n in u.locks && n !in t.locks;
    assert forall l :: l in u.locks <==> l in t.locks || l == n;
    if e.expiresAt >= now && !ClearAbove(t.locks, e, now) {
      var a :| a in t.locks && !a.Expired(now) && a.path <= e.path && (a.Exclusive() || e.scope == "exclusive");
      assert Overlap(a, n, now);
    }
    if e.expiresAt < now || ClearAbove(t.locks, e, now) {
      forall a, b | a in u.locks && b in u.locks && Overlap(a, b, now) ensures !a.Exclusive() && !b.Exclusive() {
        if a == n { assert !Conflicts(b, e.path, e.scope == "exclusive", now); }
      }
    }
  }

  lemma JoinCompatible(t: Table, e: Event, now: int)
    requires Shape(t) && Compatible(t.locks, now) && e.Create? && e.collection && Created(t, e, now).0 == OK
    requires Find(t.locks, e.path) < |t.locks|
    ensures Compatible(Created(t, e, now).1.locks, now)
  {
    var i := Find(t.locks, e.path);
    var o := t.locks[i];
    var u := Created(t, e, now).1;
    var m := u.locks[i];
    assert forall l :: l in u.locks ==> l == m || (l in t.locks && l != o) by {
      forall l | l in u.locks ensures l == m || (l in t.locks && l != o) {
        var j :| 0 <= j < |u.locks| && u.locks[j] == l;
        if j != i { assert l == t.locks[j] && t.locks[j].path != o.path; }
      }
    }
    forall a, b | a in u.locks && b in u.locks && Overlap(a, b, now) ensures !a.Exclusive() && !b.Exclusive() {
      assert Overlap(if a == m then o else a, if b == m then o else b, now);
    }
  }

  lemma DistinctIds(t: Table, a: Lock, b: Lock)
    requires Shape(t) && a in t.locks && b in t.locks && a != b
    ensures a.id != b.id
  {
  }

  /** Other requests leave the live locks compatible; so does the passing of time. */
  lemma StepCompatible(t: Table, e: Event, now: int)
    requires Shape(t) && Compatible(t.locks, now) && !e.Create? && RenewsLive(t, e, now)
    ensures Compatible(Step(t, e, now).locks, now)
  {
    var u := Step(t, e, now);
    StepShape(t, e, now);
    forall a | a in u.locks ensures exists o :: o in t.locks && Stems(o, a, now) {
      StemsFrom(t, e, now, a);
    }
    forall a, b | a in u.locks && b in u.locks && Overlap(a, b, now) ensures !a.Exclusive() && !b.Exclusive() {
      var o :| o in t.locks && Stems(o, a, now);
      var p :| p in t.locks && Stems(p, b, now);
      DistinctIds(u, a, b);
      assert Overlap(o, p, now);
    }
  }

  /** a is what a request made of o. */
  ghost predicate Stems(o: Lock, a: Lock, now: int) {
    o.id == a.id && o.path == a.path && o.scope == a.scope && (!a.Expired(now) ==> !o.Expired(now))
  }

  lemma ReleasedStems(locks: seq<Lock>, path: string, tokenHeader: string, now: int, a: Lock)
    requires a in Released(locks, path, tokenHeader)
    ensures exists o :: o in locks && Stems(o, a, now)
  {
    if a in locks {
      assert Stems(a, a, now);
    } else {
      var o := locks[Find(locks, path)];
      assert a == o.(tokens := a.tokens);
      assert o in locks && Stems(o, a, now);
    }
  }

  lemma StemsFrom(t: Table, e: Event, now: int, a: Lock)
    requires Shape(t) && !e.Create? && RenewsLive(t, e, now) && a in Step(t, e, now).locks
    ensures exists o :: o in t.locks && Stems(o, a, now)
  {
    match e
    case Refresh(_, _, _) =>
      var r := Refreshed(t.locks, e);
      var j :| 0 <= j < |r| && r[j] == a;
      assert t.locks[j] in t.locks && Stems(t.locks[j], a, now);
    case Check(path, header) =>
      WalkKeepsLive(t.locks, path, header, now);
      assert Stems(a, a, now);
    case Unlock(path, header, tokenHeader) =>
      WalkKeepsLive(t.locks, path, header, now);
      if !Walk(t.locks, path, header, now).0 {
        ReleasedStems(Checked(t, path, header, now).locks, path, tokenHeader, now, a);
      } else {
        assert Stems(a, a, now);
      }
  }

  /** Every grant of the run met the condition of `GrantCompatibleIff`. */
  ghost predicate LooksUp(t: Table, e: Event, now: int) {
    e.Create? && Created(t, e, now).1 != t ==>
      Find(t.locks, e.path) < |t.locks| || e.expiresAt < now || ClearAbove(t.locks, e, now)
  }

  lemma LooksUpKeeps(t: Table, e: Event, now: int)
    requires Shape(t) && Compatible(t.locks, now) && e.Create? && LooksUp(t, e, now)
    ensures Compatible(Created(t, e, now).1.locks, now)
  {
    if Created(t, e, now).1 != t {
      GrantCompatibleIff(t, e, now);
    }
  }

  ghost predicate RunLooksUp(t: Table, es: seq<Timed>)
    decreases |es|
  {
    es == [] || (LooksUp(t, es[0].event, es[0].at) && RunLooksUp(Step(t, es[0].event, es[0].at), es[1..]))
  }

  /** In every run whose grants look up and whose refreshes renew live locks, the live locks are compatible. */
  lemma {:induction false} RunCompatible(t: Table, prev: int, es: seq<Timed>, now: int)
    requires Shape(t) && Compatible(t.locks, prev) && Ordered(prev, es) && RunRenewsLive(t, es) && RunLooksUp(t, es)
    requires (es == [] ==> prev <= now) && (es != [] ==> es[|es| - 1].at <= now)
    ensures Compatible(Run(t, es).locks, now)
    decreases |es|
  {
    if es != [] {
      var e, at := es[0].event, es[0].at;
      StepShape(t, e, at);
      LaterCompatible(t.locks, prev, at);
      if e.Create? {
        LooksUpKeeps(t, e, at);
      } else {
        StepCompatible(t, e, at);
      }
      RunCompatible(Step(t, e, at), at, es[1..], now);
    } else {
      LaterCompatible(t.locks, prev, now);
    }
  }

  lemma LaterCompatible(locks: seq<Lock>, prev: int, now: int)
    requires Compatible(locks, prev) && prev <= now
    ensures Compatible(locks, now)
  {
    forall a, b | a in locks && b in locks && Overlap(a, b, now) ensures !a.Exclusive() && !b.Exclusive() {
      assert Overlap(a, b, prev);
    }
  }

  /** For example, below a live exclusive lock another one is granted. */
  lemma AncestorsNotChecked(a: Lock, e: Event, now: int)
    requires a.Exclusive() && !a.Expired(now) && a.id == 0
    requires e.Create? && e.scope == "exclusive" && e.collection && e.expiresAt >= now
    requires a.path < e.path
    ensures var r := Created(Table([a], {}, 1), e, now);
      r.0 == OK && |r.1.locks| == 2 &&
      forall l :: l in r.1.locks ==> l.Exclusive() && !l.Expired(now) && l.path <= e.path
  {
    assert [a][1..] == [];
    assert Find([a], e.path) == 1 + Find([], e.path);
    assert !(e.path <= a.path);
  }
}
