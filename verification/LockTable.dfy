/**
 * The WebDAV lock table as a state machine (CaimitoAsyncWebdavServlet: doLock, isLocked,
 * doUnlock1). A request is one atomic step at a time `now`.
 */
module LockTable {
  import opened Rewriting

  /**
   * One entry of `collectionLocks`. id numbers the locks in the order they were added;
   * created is the creation date that every LockInfo carries.
   */
  datatype Lock = Lock(id: nat, path: string, scope: string, tokens: seq<string>, expiresAt: int, created: int)
  {
    predicate Expired(now: int) {
      now > expiresAt
    }

    predicate Exclusive() {
      scope == "exclusive"
    }

    /** One of the tokens of this lock occurs in the header. */
    predicate Unlockable(header: string) {
      Given(tokens, header)
    }

    /** This lock keeps a request without its token from path. */
    predicate Blocks(path: string, header: string, now: int) {
      !Expired(now) && this.path <= path && !Unlockable(header)
    }
  }

  predicate Given(tokens: seq<string>, header: string) {
    exists t :: t in tokens && Occurs(header, t)
  }

  /** l keeps a request with this header from path: it is in force, above path, and no token of it is in the header. */
  ghost predicate KeepsOut(l: Lock, path: string, header: string, now: int) {
    now <= l.expiresAt && l.path <= path && forall t :: t in l.tokens ==> !Contains(header, t)
  }

  lemma BlocksIff(l: Lock, path: string, header: string, now: int)
    ensures l.Blocks(path, header, now) <==> KeepsOut(l, path, header, now)
  {
    GivenIff(l.tokens, header);
  }

  lemma GivenIff(tokens: seq<string>, header: string)
    ensures Given(tokens, header) <==> exists t :: t in tokens && Contains(header, t)
  {
    forall t | t in tokens ensures Occurs(header, t) <==> Contains(header, t) {
      OccursIff(header, t);
    }
  }

  // ---- isLocked: removing from the list while walking it ----

  /**
   * The answer and what is left of the list. Removing an expired lock moves its successor into
   * its place, and the enumeration then steps over the successor.
   */
  function Walk(locks: seq<Lock>, path: string, header: string, now: int): (bool, seq<Lock>)
    decreases |locks|
  {
    if locks == [] then (false, [])
    else if locks[0].Expired(now) then
      if |locks| == 1 then (false, [])
      else var w := Walk(locks[2..], path, header, now); (w.0, [locks[1]] + w.1)
    else if locks[0].Blocks(path, header, now) then (true, locks)
    else var w := Walk(locks[1..], path, header, now); (w.0, [locks[0]] + w.1)
  }

  /** Whether path is locked for a request with this header. */
  predicate Locked(locks: seq<Lock>, path: string, header: string, now: int) {
    exists l :: l in locks && l.Blocks(path, header, now)
  }

  /** How many expired locks stand directly before position j. */
  function ExpiredRun(locks: seq<Lock>, j: nat, now: int): nat
    requires j < |locks|
  {
    if j == 0 || !locks[j - 1].Expired(now) then 0 else 1 + ExpiredRun(locks, j - 1, now)
  }

  lemma {:induction false} RunOfSuffix(locks: seq<Lock>, k: nat, j: nat, now: int)
    requires k <= j < |locks| && ExpiredRun(locks, k, now) % 2 == 0
    ensures ExpiredRun(locks[k..], j - k, now) % 2 == ExpiredRun(locks, j, now) % 2
    decreases j
  {
    if j > k {
      assert locks[k..][j - k - 1] == locks[j - 1];
      RunOfSuffix(locks, k, j - 1, now);
    }
  }

  /** isLocked sees the lock at position j, and it stops the request. */
  predicate StoppedAt(locks: seq<Lock>, j: nat, path: string, header: string, now: int) {
    j < |locks| && locks[j].Blocks(path, header, now) && ExpiredRun(locks, j, now) % 2 == 0
  }

  lemma StoppedLater(locks: seq<Lock>, k: nat, j: nat, path: string, header: string, now: int)
    requires k <= j && k < |locks| && ExpiredRun(locks, k, now) % 2 == 0
    ensures StoppedAt(locks[k..], j - k, path, header, now) <==> StoppedAt(locks, j, path, header, now)
  {
    if j < |locks| {
      RunOfSuffix(locks, k, j, now);
    }
  }

  /**
   * Exactly when isLocked answers true: some lock blocks the request and an even number of
   * expired locks stands directly before it in the list.
   */
  lemma {:induction false} WalkIff(locks: seq<Lock>, path: string, header: string, now: int)
    ensures Walk(locks, path, header, now).0 <==> exists j: nat :: StoppedAt(locks, j, path, header, now)
    decreases |locks|
  {
    if locks == [] || (locks[0].Expired(now) && |locks| == 1) {
    } else if locks[0].Blocks(path, header, now) {
      assert StoppedAt(locks, 0, path, header, now);
    } else {
      var k := if locks[0].Expired(now) then 2 else 1;
      WalkIff(locks[k..], path, header, now);
      assert k == 2 ==> ExpiredRun(locks, 1, now) == 1;
      if k < |locks| {
        forall j: nat | k <= j
          ensures StoppedAt(locks[k..], j - k, path, header, now) <==> StoppedAt(locks, j, path, header, now)
        {
          StoppedLater(locks, k, j, path, header, now);
        }
        if j: nat :| StoppedAt(locks[k..], j, path, header, now) {
          assert StoppedAt(locks, j + k, path, header, now);
        }
        if j: nat :| StoppedAt(locks, j, path, header, now) {
          assert StoppedAt(locks[k..], j - k, path, header, now);
        }
      }
    }
  }

  /** The locks that have not expired, in their order. */
  function Live(locks: seq<Lock>, now: int): seq<Lock> {
    if locks == [] then [] else (if locks[0].Expired(now) then [] else [locks[0]]) + Live(locks[1..], now)
  }

  /** A call deletes expired locks only. */
  lemma {:induction false} WalkKeepsLive(locks: seq<Lock>, path: string, header: string, now: int)
    ensures Live(Walk(locks, path, header, now).1, now) == Live(locks, now)
    ensures |Walk(locks, path, header, now).1| <= |locks|
    ensures forall l :: l in Walk(locks, path, header, now).1 ==> l in locks
    decreases |locks|
  {
    if locks == [] || (|locks| == 1 && locks[0].Expired(now)) {
    } else if locks[0].Expired(now) {
      WalkKeepsLive(locks[2..], path, header, now);
      assert locks[1..][1..] == locks[2..] && locks[1..][0] == locks[1];
      var w := Walk(locks[2..], path, header, now);
      assert ([locks[1]] + w.1)[1..] == w.1;
    } else if !locks[0].Blocks(path, header, now) {
      WalkKeepsLive(locks[1..], path, header, now);
      var w := Walk(locks[1..], path, header, now);
      assert ([locks[0]] + w.1)[1..] == w.1;
    }
  }

  /** A call that removes nothing is exact, and true is always right. */
  lemma {:induction false} WalkExact(locks: seq<Lock>, path: string, header: string, now: int)
    ensures Walk(locks, path, header, now).0 ==> Locked(locks, path, header, now)
    ensures |Walk(locks, path, header, now).1| == |locks| ==>
              (Walk(locks, path, header, now).0 <==> Locked(locks, path, header, now)) &&
              Walk(locks, path, header, now).1 == locks
    decreases |locks|
  {
    WalkIff(locks, path, header, now);
    if locks == [] || (|locks| == 1 && locks[0].Expired(now)) {
    } else if locks[0].Expired(now) {
      WalkKeepsLive(locks[2..], path, header, now);
    } else if !locks[0].Blocks(path, header, now) {
      var w := Walk(locks[1..], path, header, now);
      WalkExact(locks[1..], path, header, now);
      assert locks == [locks[0]] + locks[1..];
    }
  }

  lemma {:induction false} LiveMembers(locks: seq<Lock>, now: int)
    ensures forall l :: l in Live(locks, now) <==> l in locks && !l.Expired(now)
    decreases |locks|
  {
    if locks != [] {
      LiveMembers(locks[1..], now);
      assert locks == [locks[0]] + locks[1..];
    }
  }

  /** Asking again until nothing is removed: the number of calls and the last answer. */
  function Settle(locks: seq<Lock>, path: string, header: string, now: int): (r: (nat, bool))
    ensures 1 <= r.0 <= |locks| + 1
    ensures r.1 <==> Locked(locks, path, header, now)
    decreases |locks|
  {
    WalkExact(locks, path, header, now);
    WalkKeepsLive(locks, path, header, now);
    LiveMembers(locks, now);
    var w := Walk(locks, path, header, now);
    LiveMembers(w.1, now);
    assert forall l: Lock :: l.Blocks(path, header, now) ==> (l in locks <==> l in Live(locks, now));
    if |w.1| == |locks| then (1, w.0)
    else var r := Settle(w.1, path, header, now); (1 + r.0, r.1)
  }

  // ---- doLock and doUnlock1 ----

  datatype Event =
    | Create(path: string, scope: string, token: string, expiresAt: int, collection: bool)
    | Refresh(path: string, header: string, expiresAt: int)
    | Check(path: string, header: string)
    | Unlock(path: string, header: string, tokenHeader: string)

  /** The locks of the table, those that isLocked removed, and the number of the next lock. */
  datatype Table = Table(locks: seq<Lock>, gone: set<Lock>, next: nat)

  datatype Status = OK | CONFLICT | LOCKED

  /** l keeps a lock on path from being granted: it is held at or below path and one of the two is exclusive. */
  predicate Conflicts(l: Lock, path: string, exclusive: bool, now: int) {
    !l.Expired(now) && path <= l.path && (l.Exclusive() || exclusive)
  }

  predicate AnyConflict(locks: seq<Lock>, path: string, exclusive: bool, now: int) {
    exists l :: l in locks && Conflicts(l, path, exclusive, now)
  }

  /** The position of the lock on exactly this path, expired or not. */
  function Find(locks: seq<Lock>, path: string): (i: nat)
    ensures i <= |locks|
    ensures i < |locks| ==> locks[i].path == path
    ensures forall j :: 0 <= j < i ==> locks[j].path != path
  {
    if locks == [] || locks[0].path == path then 0 else 1 + Find(locks[1..], path)
  }

  /** Only an unlimited lock on an existing collection is entered in the table. */
  function Created(t: Table, e: Event, now: int): (Status, Table)
    requires e.Create?
  {
    if !e.collection then (OK, t)
    else if AnyConflict(t.locks, e.path, e.scope == "exclusive", now) then (CONFLICT, t)
    else Stored(t, e.path, e.scope, e.expiresAt, now, e.token)
  }

  /** The token joins a shared lock of the same path, or starts a new lock. */
  function Stored(t: Table, path: string, scope: string, expiresAt: int, now: int, token: string): (Status, Table) {
    var i := Find(t.locks, path);
    if i == |t.locks| then
      (OK, t.(locks := t.locks + [Lock(t.next, path, scope, [token], expiresAt, now)], next := t.next + 1))
    else if t.locks[i].Exclusive() || scope == "exclusive" then (LOCKED, t)
    else (OK, t.(locks := t.locks[i := t.locks[i].(tokens := t.locks[i].tokens + [token])]))
  }

  predicate Renews(l: Lock, e: Event)
    requires e.Refresh?
  {
    l.path == e.path && l.Unlockable(e.header)
  }

  function Refreshed(locks: seq<Lock>, e: Event): (r: seq<Lock>)
    requires e.Refresh?
    ensures |r| == |locks|
    ensures forall i :: 0 <= i < |r| ==>
              r[i] == if Renews(locks[i], e) then locks[i].(expiresAt := e.expiresAt) else locks[i]
  {
    seq(|locks|, i requires 0 <= i < |locks| =>
      if Renews(locks[i], e) then locks[i].(expiresAt := e.expiresAt) else locks[i])
  }

  function Checked(t: Table, path: string, header: string, now: int): Table {
    var w := Walk(t.locks, path, header, now);
    t.(locks := w.1, gone := t.gone + Removed(t.locks, w.1))
  }

  function Removed(before: seq<Lock>, after: seq<Lock>): set<Lock> {
    set l | l in before && l !in after
  }

  /** The tokens without the first one that occurs in the header. */
  function Dropped(tokens: seq<string>, header: string): seq<string> {
    if tokens == [] then []
    else if Occurs(header, tokens[0]) then tokens[1..]
    else [tokens[0]] + Dropped(tokens[1..], header)
  }

  /** Gives a token back, and the lock itself with its last token. */
  function Released(locks: seq<Lock>, path: string, tokenHeader: string): seq<Lock> {
    var i := Find(locks, path);
    if i == |locks| then locks
    else
      var tokens := Dropped(locks[i].tokens, tokenHeader);
      if tokens == [] then locks[..i] + locks[i + 1..] else locks[i := locks[i].(tokens := tokens)]
  }

  function Step(t: Table, e: Event, now: int): Table {
    match e
    case Create(_, _, _, _, _) => Created(t, e, now).1
    case Refresh(_, _, _) => t.(locks := Refreshed(t.locks, e))
    case Check(path, header) => Checked(t, path, header, now)
    case Unlock(path, header, tokenHeader) =>
      var c := Checked(t, path, header, now);
      if Walk(t.locks, path, header, now).0 then c
      else c.(locks := Released(c.locks, path, tokenHeader))
  }

  /** l is in force at or below path, and the two exclude each other. */
  predicate HeldBelow(l: Lock, path: string, scope: string, now: int) {
    now <= l.expiresAt && path <= l.path && (l.scope == "exclusive" || scope == "exclusive")
  }

  /** l is an entry for path itself, expired or not, and the two exclude each other. */
  predicate HeldAt(l: Lock, path: string, scope: string) {
    l.path == path && (l.scope == "exclusive" || scope == "exclusive")
  }

  /**
   * A lock on a collection is refused with CONFLICT exactly if one is held at or below the path,
   * and with LOCKED exactly if the path itself has an entry that excludes it. Else its token joins
   * the entry of the path, or starts one, and every other lock is as it was. A lock on anything
   * else is always answered and never entered.
   */
  lemma GrantedIff(t: Table, e: Event, now: int)
    requires Shape(t) && e.Create?
    ensures var r := Created(t, e, now);
      if !e.collection then r == (OK, t)
      else if exists l :: l in t.locks && HeldBelow(l, e.path, e.scope, now) then r == (CONFLICT, t)
      else if exists l :: l in t.locks && HeldAt(l, e.path, e.scope) then r == (LOCKED, t)
      else
        && r.0 == OK && (exists l :: l in r.1.locks && Holds(l, t, e, now))
        && (forall l: Lock :: l.path != e.path ==> (l in t.locks <==> l in r.1.locks))
  {
    var i := Find(t.locks, e.path);
    var r := Created(t, e, now);
    assert forall l: Lock :: Conflicts(l, e.path, e.scope == "exclusive", now) <==> HeldBelow(l, e.path, e.scope, now);
    if e.collection && !AnyConflict(t.locks, e.path, e.scope == "exclusive", now) {
      if i == |t.locks| {
        assert Holds(r.1.locks[i], t, e, now);
      } else {
        assert t.locks[i] in t.locks;
        SamePath(t, i);
        if !t.locks[i].Exclusive() && e.scope != "exclusive" {
          assert r.1.locks[i] in r.1.locks && Holds(r.1.locks[i], t, e, now);
          OthersStay(t.locks, i, r.1.locks[i]);
        }
      }
    }
  }

  lemma SamePath(t: Table, i: nat)
    requires Shape(t) && i < |t.locks|
    ensures forall l :: l in t.locks && l.path == t.locks[i].path ==> l == t.locks[i]
  {
  }

  /** l is what a grant makes: the entry of the path with the new token behind the others, or a new entry. */
  ghost predicate Holds(l: Lock, t: Table, e: Event, now: int)
    requires e.Create?
  {
    || (exists o :: o in t.locks && o.path == e.path && l == o.(tokens := o.tokens + [e.token]))
    || ((forall o :: o in t.locks ==> o.path != e.path) &&
        l == Lock(t.next, e.path, e.scope, [e.token], e.expiresAt, now))
  }

  lemma OthersStay(locks: seq<Lock>, i: nat, m: Lock)
    requires i < |locks| && locks[i].path == m.path
    ensures forall l: Lock :: l.path != m.path ==> (l in locks <==> l in locks[i := m])
  {
    forall l | l in locks && l.path != m.path ensures l in locks[i := m] {
      var j :| 0 <= j < |locks| && locks[j] == l;
      assert locks[i := m][j] == l;
    }
  }

  /** Some lock in force on the path of the request holds its token. */
  predicate GrantedLive(locks: seq<Lock>, e: Event, now: int)
    requires e.Create?
  {
    exists l :: l in locks && l.path == e.path && e.token in l.tokens && now <= l.expiresAt
  }

  /**
   * What a grant is worth: a lock granted for a time to come is live exactly if it is a new entry,
   * or joined one that had not expired.
   */
  lemma GrantLiveIff(t: Table, e: Event, now: int)
    requires Shape(t) && e.Create? && e.collection && e.expiresAt >= now && Created(t, e, now).0 == OK
    ensures GrantedLive(Created(t, e, now).1.locks, e, now) <==>
            Find(t.locks, e.path) == |t.locks| || !t.locks[Find(t.locks, e.path)].Expired(now)
  {
    var i := Find(t.locks, e.path);
    var u := Created(t, e, now).1;
    var l := u.locks[i];
    assert l in u.locks && l.path == e.path && l.tokens[|l.tokens| - 1] == e.token;
    forall m | m in u.locks && m.path == e.path ensures m == l {
      var j :| 0 <= j < |u.locks| && u.locks[j] == m;
      CreatedShape(t, e, now);
    }
  }

  // ---- Shape ----

  ghost predicate WellFormed(l: Lock) {
    l.tokens != [] && (l.Exclusive() ==> |l.tokens| == 1)
  }

  /**
   * Paths are pairwise distinct, every lock has a token, an exclusive lock exactly one; locks stand in
   * the order they were added.
   */
  ghost predicate Shape(t: Table) {
    (forall i, j :: 0 <= i < j < |t.locks| ==> t.locks[i].path != t.locks[j].path && t.locks[i].id < t.locks[j].id) &&
    (forall l :: l in t.locks ==> WellFormed(l)) &&
    (forall l :: l in t.locks || l in t.gone ==> l.id < t.next)
  }

  /** s is what is left of t when some elements are taken out. */
  ghost predicate Subsequence(s: seq<Lock>, t: seq<Lock>)
    decreases |t|
  {
    if s == [] then true
    else t != [] && ((s[0] == t[0] && Subsequence(s[1..], t[1..])) || Subsequence(s, t[1..]))
  }

  lemma {:induction false} SubsequenceRefl(s: seq<Lock>)
    ensures Subsequence(s, s)
    decreases |s|
  {
    if s != [] { SubsequenceRefl(s[1..]); }
  }

  /** Taking elements out keeps every property of pairs in order. */
  lemma {:induction false} SubsequenceShape(s: seq<Lock>, t: seq<Lock>, i: nat, j: nat) returns (k: nat, l: nat)
    requires Subsequence(s, t) && i <= j < |s|
    ensures k <= l < |t| && t[k] == s[i] && t[l] == s[j] && (i < j ==> k < l)
    decreases |t|
  {
    if s[0] == t[0] && Subsequence(s[1..], t[1..]) {
      if j == 0 {
        k, l := 0, 0;
      } else if i == 0 {
        k, l := SubsequenceShape(s[1..], t[1..], j - 1, j - 1);
        k, l := 0, l + 1;
      } else {
        k, l := SubsequenceShape(s[1..], t[1..], i - 1, j - 1);
        k, l := k + 1, l + 1;
      }
    } else {
      k, l := SubsequenceShape(s, t[1..], i, j);
      k, l := k + 1, l + 1;
    }
  }

  lemma {:induction false} WalkSubsequence(locks: seq<Lock>, path: string, header: string, now: int)
    ensures Subsequence(Walk(locks, path, header, now).1, locks)
    decreases |locks|
  {
    var w := Walk(locks, path, header, now);
    if locks == [] || (|locks| == 1 && locks[0].Expired(now)) {
    } else if locks[0].Expired(now) {
      var v := Walk(locks[2..], path, header, now);
      WalkSubsequence(locks[2..], path, header, now);
      assert w.1 == [locks[1]] + v.1 && w.1[1..] == v.1 && locks[1..][1..] == locks[2..];
      assert Subsequence(w.1, locks[1..]);
    } else if locks[0].Blocks(path, header, now) {
      SubsequenceRefl(locks);
    } else {
      var v := Walk(locks[1..], path, header, now);
      WalkSubsequence(locks[1..], path, header, now);
      assert w.1 == [locks[0]] + v.1 && w.1[1..] == v.1;
    }
  }

  lemma ShapeOfSubsequence(t: Table, u: Table)
    requires Shape(t) && Subsequence(u.locks, t.locks) && t.next == u.next
    requires u.gone <= t.gone + set l | l in t.locks
    ensures Shape(u)
    ensures forall l :: l in u.locks ==> l in t.locks
  {
    forall i | 0 <= i < |u.locks| ensures u.locks[i] in t.locks {
      var k, l := SubsequenceShape(u.locks, t.locks, i, i);
    }
    forall i, j | 0 <= i < j < |u.locks| ensures u.locks[i].path != u.locks[j].path && u.locks[i].id < u.locks[j].id {
      var k, l := SubsequenceShape(u.locks, t.locks, i, j);
    }
  }

  /** Exactly one token goes, the first that the header contains; none if it contains none. */
  lemma {:induction false} DroppedExact(tokens: seq<string>, header: string) returns (i: nat)
    ensures i <= |tokens| && forall j :: 0 <= j < i ==> !Occurs(header, tokens[j])
    ensures i < |tokens| ==> Occurs(header, tokens[i]) && Dropped(tokens, header) == tokens[..i] + tokens[i + 1..]
    ensures i == |tokens| ==> Dropped(tokens, header) == tokens
    decreases |tokens|
  {
    i := 0;
    if tokens != [] && !Occurs(header, tokens[0]) {
      i := DroppedExact(tokens[1..], header);
      assert tokens == [tokens[0]] + tokens[1..];
      i := i + 1;
    }
  }

  /** What is left of o when the first of its tokens that is in the header is given back. */
  ghost predicate LeftOf(o: Lock, header: string, i: nat, l: Lock) {
    && i <= |o.tokens| && (forall j :: 0 <= j < i ==> !Contains(header, o.tokens[j]))
    && if i == |o.tokens| then l == o
       else Contains(header, o.tokens[i]) && |o.tokens| > 1 && l == o.(tokens := o.tokens[..i] + o.tokens[i + 1..])
  }

  lemma LeftOfDropped(o: Lock, header: string, l: Lock)
    requires o.tokens != []
    ensures (exists i: nat :: LeftOf(o, header, i, l)) <==>
            Dropped(o.tokens, header) != [] && l == o.(tokens := Dropped(o.tokens, header))
  {
    var k := DroppedExact(o.tokens, header);
    forall j | 0 <= j < |o.tokens| ensures Occurs(header, o.tokens[j]) <==> Contains(header, o.tokens[j]) {
      OccursIff(header, o.tokens[j]);
    }
    if i: nat :| LeftOf(o, header, i, l) {
      assert i == k;
    }
    if Dropped(o.tokens, header) != [] && l == o.(tokens := Dropped(o.tokens, header)) {
      assert LeftOf(o, header, k, l);
    }
  }

  /**
   * UNLOCK: the lock on the path, if there is one, loses the first of its tokens that the header
   * has, and is gone with its last token; every other lock stays.
   */
  lemma ReleasedExact(t: Table, path: string, header: string, l: Lock)
    requires Shape(t)
    ensures l in Released(t.locks, path, header) <==>
            (l.path != path && l in t.locks) ||
            (exists o, i: nat :: o in t.locks && o.path == path && LeftOf(o, header, i, l))
  {
    var k := Find(t.locks, path);
    if k < |t.locks| {
      var o := t.locks[k];
      assert o in t.locks && WellFormed(o);
      SamePath(t, k);
      LeftOfDropped(o, header, l);
      PathAlone(t, k);
      MembersWithout(t.locks, k, l);
      MembersWith(t, k, o.(tokens := Dropped(o.tokens, header)), l);
    }
  }

  lemma PathAlone(t: Table, k: nat)
    requires Shape(t) && k < |t.locks|
    ensures OnlyOn(t.locks, k)
  {
  }

  predicate OnlyOn(locks: seq<Lock>, k: nat)
    requires k < |locks|
  {
    forall j :: 0 <= j < |locks| && j != k ==> locks[j].path != locks[k].path
  }

  lemma MembersWithout(locks: seq<Lock>, k: nat, l: Lock)
    requires k < |locks| && OnlyOn(locks, k)
    ensures l in locks[..k] + locks[k + 1..] <==> l in locks && l.path != locks[k].path
  {
    if l in locks[k + 1..] {
      var j :| 0 <= j < |locks[k + 1..]| && locks[k + 1..][j] == l;
      assert l == locks[j + k + 1];
    }
    if l in locks && l.path != locks[k].path {
      var j :| 0 <= j < |locks| && locks[j] == l;
      assert if j < k then locks[..k][j] == l else locks[k + 1..][j - k - 1] == l;
    }
  }

  lemma MembersWith(t: Table, k: nat, m: Lock, l: Lock)
    requires Shape(t) && k < |t.locks| && m.path == t.locks[k].path
    ensures l in t.locks[k := m] <==> (l in t.locks && l.path != m.path) || l == m
  {
    OthersStay(t.locks, k, m);
    assert t.locks[k := m][k] == m;
    if l in t.locks[k := m] {
      var j :| 0 <= j < |t.locks| && t.locks[k := m][j] == l;
    }
  }

  lemma ShapeWithout(t: Table, i: nat)
    requires Shape(t) && i < |t.locks|
    ensures Shape(t.(locks := t.locks[..i] + t.locks[i + 1..]))
  {
  }

  lemma ShapeWith(t: Table, i: nat, tokens: seq<string>)
    requires Shape(t) && i < |t.locks| && tokens != [] && (t.locks[i].Exclusive() ==> |tokens| == 1)
    ensures Shape(t.(locks := t.locks[i := t.locks[i].(tokens := tokens)]))
  {
    var l := t.locks[i].(tokens := tokens);
    assert t.locks[i] in t.locks && l.Exclusive() == t.locks[i].Exclusive();
    assert WellFormed(l);
  }

  lemma ShapeAdded(t: Table, path: string, scope: string, expiresAt: int, now: int, token: string)
    requires Shape(t) && Find(t.locks, path) == |t.locks|
    ensures Shape(Stored(t, path, scope, expiresAt, now, token).1)
  {
  }

  lemma CreatedShape(t: Table, e: Event, now: int)
    requires Shape(t) && e.Create?
    ensures Shape(Created(t, e, now).1)
  {
    var i := Find(t.locks, e.path);
    if i == |t.locks| {
      ShapeAdded(t, e.path, e.scope, e.expiresAt, now, e.token);
    } else if !t.locks[i].Exclusive() {
      ShapeWith(t, i, t.locks[i].tokens + [e.token]);
    }
  }

  lemma RefreshedShape(t: Table, e: Event)
    requires Shape(t) && e.Refresh?
    ensures Shape(t.(locks := Refreshed(t.locks, e)))
  {
    var r := Refreshed(t.locks, e);
    forall l | l in r ensures WellFormed(l) && l.id < t.next {
      var i :| 0 <= i < |r| && r[i] == l;
      assert WellFormed(t.locks[i]);
    }
  }

  lemma StepShape(t: Table, e: Event, now: int)
    requires Shape(t)
    ensures Shape(Step(t, e, now))
  {
    match e
    case Create(_, _, _, _, _) => CreatedShape(t, e, now);
    case Refresh(_, _, _) => RefreshedShape(t, e);
    case Check(path, header) =>
      WalkSubsequence(t.locks, path, header, now);
      ShapeOfSubsequence(t, Checked(t, path, header, now));
    case Unlock(path, header, tokenHeader) =>
      var c := Checked(t, path, header, now);
      WalkSubsequence(t.locks, path, header, now);
      ShapeOfSubsequence(t, c);
      ReleasedShape(c, path, tokenHeader);
  }

  lemma ReleasedShape(t: Table, path: string, tokenHeader: string)
    requires Shape(t)
    ensures Shape(t.(locks := Released(t.locks, path, tokenHeader)))
  {
    var i := Find(t.locks, path);
    if i < |t.locks| {
      var tokens := Dropped(t.locks[i].tokens, tokenHeader);
      var j := DroppedExact(t.locks[i].tokens, tokenHeader);
      assert WellFormed(t.locks[i]);
      if tokens == [] {
        ShapeWithout(t, i);
      } else {
        ShapeWith(t, i, tokens);
      }
    }
  }

  // ---- History ----

  ghost predicate In(t: Table, l: Lock) {
    l in t.locks || l in t.gone
  }

  /** b was added after a, its path is a string prefix of a's, and one of the two is exclusive. */
  ghost predicate Related(a: Lock, b: Lock) {
    a.id < b.id && b.path <= a.path && (a.Exclusive() || b.Exclusive())
  }

  /** a had expired when b was created. */
  ghost predicate InTurn(a: Lock, b: Lock) {
    Related(a, b) ==> a.expiresAt < b.created
  }

  ghost predicate History(t: Table) {
    forall a, b :: In(t, a) && In(t, b) ==> InTurn(a, b)
  }

  ghost predicate Clock(t: Table, now: int) {
    (forall l :: In(t, l) ==> l.created <= now) && (forall l :: l in t.gone ==> l.expiresAt < now)
  }

  /** No lock added later than a conflicts with it. */
  ghost predicate NoneLater(t: Table, a: Lock) {
    forall b :: In(t, b) ==> !Related(a, b)
  }

  /**
   * A refresh renews only locks that are unexpired, or that no later lock conflicts with. doLock
   * does not check this.
   */
  ghost predicate RenewsSafely(t: Table, e: Event, now: int) {
    e.Refresh? ==> forall l :: l in t.locks && Renews(l, e) ==> !l.Expired(now) || NoneLater(t, l)
  }

  lemma CheckedHistory(t: Table, path: string, header: string, prev: int, now: int)
    requires Shape(t) && History(t) && Clock(t, prev) && prev <= now
    ensures var c := Checked(t, path, header, now);
      Shape(c) && History(c) && Clock(c, now) && (forall l :: In(c, l) ==> In(t, l))
  {
    var c := Checked(t, path, header, now);
    WalkSubsequence(t.locks, path, header, now);
    ShapeOfSubsequence(t, c);
    WalkKeepsLive(t.locks, path, header, now);
    LiveMembers(t.locks, now);
    LiveMembers(c.locks, now);
    assert forall l :: In(c, l) ==> In(t, l);
    forall l | l in c.gone ensures l.expiresAt < now {
      if l !in t.gone { assert l in t.locks && l !in c.locks; }
    }
  }

  lemma CreatedHistory(t: Table, e: Event, prev: int, now: int)
    requires Shape(t) && History(t) && Clock(t, prev) && prev <= now && e.Create?
    ensures var u := Created(t, e, now).1; History(u) && Clock(u, now)
  {
    var u := Created(t, e, now).1;
    var i := Find(t.locks, e.path);
    if |u.locks| > |t.locks| {
      var n := u.locks[|t.locks|];
      forall a | In(t, a) ensures InTurn(a, n) && InTurn(n, a) {
        if a in t.locks { assert !Conflicts(a, e.path, e.scope == "exclusive", now); }
      }
    } else if u != t {
      var m := u.locks[i];
      var o := t.locks[i];
      assert In(t, o);
      forall a | In(t, a) ensures InTurn(a, m) && InTurn(m, a) {
        assert InTurn(a, o) && InTurn(o, a);
      }
      forall a | In(u, a) ensures a == m || In(t, a) {
      }
    }
  }

  /** What a refresh makes of a lock: the same, or with a new time of expiry, if that was safe. */
  ghost predicate Renewed(t: Table, o: Lock, b: Lock, e: Event, now: int)
    requires e.Refresh?
  {
    b == o || ((!o.Expired(now) || NoneLater(t, o)) && b == o.(expiresAt := e.expiresAt))
  }

  lemma RefreshedFrom(t: Table, e: Event, now: int, b: Lock) returns (o: Lock)
    requires e.Refresh? && RenewsSafely(t, e, now) && In(t.(locks := Refreshed(t.locks, e)), b)
    ensures In(t, o) && Renewed(t, o, b, e, now)
  {
    var r := Refreshed(t.locks, e);
    if b in r {
      var j :| 0 <= j < |r| && r[j] == b;
      o := t.locks[j];
    } else {
      o := b;
    }
  }

  lemma RefreshedHistory(t: Table, e: Event, prev: int, now: int)
    requires Shape(t) && History(t) && Clock(t, prev) && prev <= now && e.Refresh? && RenewsSafely(t, e, now)
    ensures var u := t.(locks := Refreshed(t.locks, e)); History(u) && Clock(u, now)
  {
    var u := t.(locks := Refreshed(t.locks, e));
    forall b | In(u, b) ensures b.created <= now {
      var o := RefreshedFrom(t, e, now, b);
    }
    forall a, b | In(u, a) && In(u, b) ensures InTurn(a, b) {
      var o := RefreshedFrom(t, e, now, a);
      var p := RefreshedFrom(t, e, now, b);
      assert InTurn(o, p) && (NoneLater(t, o) ==> !Related(o, p));
    }
  }

  /** What UNLOCK leaves of a lock: the lock, with all or some of its tokens. */
  lemma ReleasedFrom(t: Table, path: string, tokenHeader: string, b: Lock) returns (o: Lock)
    requires In(t.(locks := Released(t.locks, path, tokenHeader)), b)
    ensures In(t, o) && b == o.(tokens := b.tokens)
  {
    o := b;
    if b !in t.gone && b !in t.locks {
      o := t.locks[Find(t.locks, path)];
    }
  }

  lemma ReleasedHistory(t: Table, path: string, tokenHeader: string, now: int)
    requires Shape(t) && History(t) && Clock(t, now)
    ensures var u := t.(locks := Released(t.locks, path, tokenHeader)); History(u) && Clock(u, now)
  {
    var u := t.(locks := Released(t.locks, path, tokenHeader));
    forall b | In(u, b) ensures b.created <= now {
      var o := ReleasedFrom(t, path, tokenHeader, b);
    }
    forall a, b | In(u, a) && In(u, b) ensures InTurn(a, b) {
      var o := ReleasedFrom(t, path, tokenHeader, a);
      var p := ReleasedFrom(t, path, tokenHeader, b);
      assert InTurn(o, p);
    }
  }

  lemma StepHistory(t: Table, e: Event, prev: int, now: int)
    requires Shape(t) && History(t) && Clock(t, prev) && prev <= now && RenewsSafely(t, e, now)
    ensures History(Step(t, e, now)) && Clock(Step(t, e, now), now)
  {
    match e
    case Create(_, _, _, _, _) => CreatedHistory(t, e, prev, now);
    case Refresh(_, _, _) => RefreshedHistory(t, e, prev, now);
    case Check(path, header) => CheckedHistory(t, path, header, prev, now);
    case Unlock(path, header, tokenHeader) =>
      CheckedHistory(t, path, header, prev, now);
      ReleasedHistory(Checked(t, path, header, now), path, tokenHeader, now);
  }

  // ---- Runs ----

  datatype Timed = Timed(event: Event, at: int)

  const EMPTY := Table([], {}, 0)

  function Run(t: Table, es: seq<Timed>): Table
    decreases |es|
  {
    if es == [] then t else Run(Step(t, es[0].event, es[0].at), es[1..])
  }

  ghost predicate Ordered(prev: int, es: seq<Timed>)
    decreases |es|
  {
    es == [] || (prev <= es[0].at && Ordered(es[0].at, es[1..]))
  }

  ghost predicate RunRenewsSafely(t: Table, es: seq<Timed>)
    decreases |es|
  {
    es == [] || (RenewsSafely(t, es[0].event, es[0].at) && RunRenewsSafely(Step(t, es[0].event, es[0].at), es[1..]))
  }

  /** The shape holds in every run, whatever is renewed. */
  lemma {:induction false} RunShape(t: Table, es: seq<Timed>)
    requires Shape(t)
    ensures Shape(Run(t, es))
    decreases |es|
  {
    if es != [] {
      StepShape(t, es[0].event, es[0].at);
      RunShape(Step(t, es[0].event, es[0].at), es[1..]);
    }
  }

  lemma {:induction false} RunHistory(t: Table, prev: int, es: seq<Timed>)
    requires Shape(t) && History(t) && Clock(t, prev) && Ordered(prev, es) && RunRenewsSafely(t, es)
    ensures History(Run(t, es))
    decreases |es|
  {
    if es != [] {
      var u := Step(t, es[0].event, es[0].at);
      StepShape(t, es[0].event, es[0].at);
      StepHistory(t, es[0].event, prev, es[0].at);
      RunHistory(u, es[0].at, es[1..]);
    }
  }

  /**
   * Exclusive locks take turns: in every run from the empty table whose refreshes renew
   * safely, a lock added later on a prefix of the path of an earlier one found it
   * expired if either is exclusive. Locks given back by UNLOCK are not in the table any more.
   */
  lemma ExclusiveInTurn(es: seq<Timed>, prev: int, a: Lock, b: Lock)
    requires Ordered(prev, es) && RunRenewsSafely(EMPTY, es)
    requires In(Run(EMPTY, es), a) && In(Run(EMPTY, es), b)
    requires a.id < b.id && b.path <= a.path && (a.Exclusive() || b.Exclusive())
    ensures a.expiresAt < b.created
  {
    RunHistory(EMPTY, prev, es);
    assert InTurn(a, b);
  }

  /** So of two such locks that are live at the same time neither is exclusive. */
  lemma LiveTogether(es: seq<Timed>, prev: int, a: Lock, b: Lock, now: int)
    requires Ordered(prev, es) && RunRenewsSafely(EMPTY, es)
    requires In(Run(EMPTY, es), a) && In(Run(EMPTY, es), b) && a.id < b.id && b.path <= a.path
    requires b.created <= now && !a.Expired(now) && !b.Expired(now)
    ensures !a.Exclusive() && !b.Exclusive()
  {
    if a.Exclusive() || b.Exclusive() {
      ExclusiveInTurn(es, prev, a, b);
    }
  }

  // ---- Where the guarantee ends ----

  /**
   * One refresh that sets the expiry of a lock to now or later keeps the history exactly if no
   * related lock was added after that lock, which is so in particular if it has not expired.
   */
  lemma RefreshKeepsIff(t: Table, e: Event, i: nat, prev: int, now: int)
    requires Shape(t) && History(t) && Clock(t, prev) && prev <= now
    requires e.Refresh? && e.expiresAt >= now && i < |t.locks| && Renews(t.locks[i], e)
    ensures History(Step(t, e, now)) <==> NoneLater(t, t.locks[i])
    ensures !t.locks[i].Expired(now) ==> NoneLater(t, t.locks[i])
  {
    var o := t.locks[i];
    assert In(t, o);
    if NoneLater(t, o) {
      forall l | l in t.locks && Renews(l, e) ensures l == o {
        var j :| 0 <= j < |t.locks| && t.locks[j] == l;
        assert t.locks[j].path == t.locks[i].path;
      }
      RefreshedHistory(t, e, prev, now);
    } else {
      var b :| In(t, b) && Related(o, b);
      RefreshKeepsOthers(t, e, i, b);
      var a := Step(t, e, now).locks[i];
      assert In(Step(t, e, now), a) && !InTurn(a, b);
    }
    if !o.Expired(now) {
      forall b | In(t, b) ensures !Related(o, b) {
        assert InTurn(o, b);
      }
    }
  }

  lemma RefreshKeepsOthers(t: Table, e: Event, i: nat, b: Lock)
    requires Shape(t) && e.Refresh? && i < |t.locks| && Renews(t.locks[i], e) && In(t, b) && b.id != t.locks[i].id
    ensures In(t.(locks := Refreshed(t.locks, e)), b)
  {
    if b in t.locks {
      var j :| 0 <= j < |t.locks| && t.locks[j] == b;
      assert t.locks[j].path != t.locks[i].path;
      assert Refreshed(t.locks, e)[j] == b;
    }
  }

  /** Without the condition it fails: an exclusive lock renewed after its time is live beside a later one above it. */
  lemma LateRefresh()
    ensures var es := [Timed(Create("/a/b", "exclusive", "t", 10, true), 0),
                       Timed(Create("/a", "exclusive", "u", 100, true), 20),
                       Timed(Refresh("/a/b", "t", 200), 30)];
      Ordered(0, es) && !History(Run(EMPTY, es))
  {
    var e0, e1 := Create("/a/b", "exclusive", "t", 10, true), Create("/a", "exclusive", "u", 100, true);
    var e2 := Refresh("/a/b", "t", 200);
    var es := [Timed(e0, 0), Timed(e1, 20), Timed(e2, 30)];
    var a, b := Lock(0, "/a/b", "exclusive", ["t"], 10, 0), Lock(1, "/a", "exclusive", ["u"], 100, 20);
    assert Step(EMPTY, e0, 0) == Table([a], {}, 1);
    assert [a][1..] == [] && [a] + [b] == [a, b];
    assert Find([a], "/a") == 1 + Find([], "/a");
    assert Step(Table([a], {}, 1), e1, 20) == Table([a, b], {}, 2);
    var r := Refreshed([a, b], e2);
    assert Occurs("t", "t") && "t" in a.tokens;
    assert r[0] == a.(expiresAt := 200) && r[1] == b;
    assert In(Table(r, {}, 2), r[0]) && In(Table(r, {}, 2), r[1]) && !InTurn(r[0], r[1]);
    assert es[1..] == [Timed(e1, 20), Timed(e2, 30)] && es[1..][1..] == [Timed(e2, 30)] && es[1..][1..][1..] == [];
    assert Run(EMPTY, es) == Run(Table([a], {}, 1), es[1..]);
    assert Run(Table([a], {}, 1), es[1..]) == Run(Table([a, b], {}, 2), es[1..][1..]);
    assert Run(Table([a, b], {}, 2), es[1..][1..]) == Table(r, {}, 2);
  }

  /**
   * An expired entry that nothing has removed yet still answers for its own path: it refuses
   * with LOCKED if it or the request is exclusive, and otherwise grants a lock that is expired.
   */
  lemma StaleEntry(t: Table, e: Event, now: int)
    requires Shape(t) && e.Create? && e.collection
    requires Find(t.locks, e.path) < |t.locks| && t.locks[Find(t.locks, e.path)].Expired(now)
    requires forall l :: l in t.locks ==> !Conflicts(l, e.path, e.scope == "exclusive", now)
    ensures var r, o := Created(t, e, now), t.locks[Find(t.locks, e.path)];
      if o.Exclusive() || e.scope == "exclusive" then r == (LOCKED, t)
      else r.0 == OK && (exists l :: l in r.1.locks && l.path == e.path && e.token in l.tokens) &&
           (forall l :: l in r.1.locks && l.path == e.path ==> l.Expired(now))
  {
    var i := Find(t.locks, e.path);
    var o := t.locks[i];
    var u := Created(t, e, now).1;
    if !o.Exclusive() && e.scope != "exclusive" {
      var n := o.(tokens := o.tokens + [e.token]);
      assert u.locks[i] == n && n in u.locks;
      assert forall j :: 0 <= j < |t.locks| && j != i ==> t.locks[j].path != o.path;
      forall l | l in u.locks && l.path == e.path ensures l.Expired(now) {
        var j :| 0 <= j < |u.locks| && u.locks[j] == l;
        assert j == i;
      }
    }
  }
}
