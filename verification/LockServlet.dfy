/** The lock methods of CaimitoAsyncWebdavServlet, on the fields they change in place. */
module LockServlet {
  import opened LockTable
  import opened Rewriting

  class LockInfo {
    var path: string
    var scope: string
    var tokens: seq<string>
    var expiresAt: int
    var creationDate: int
    ghost var id: nat

    constructor (path: string, scope: string, expiresAt: int, now: int)
      ensures this.path == path && this.scope == scope && tokens == []
      ensures this.expiresAt == expiresAt && creationDate == now
    {
      this.path, this.scope, this.tokens := path, scope, [];
      this.expiresAt, this.creationDate := expiresAt, now;
    }

    function HasExpired(now: int): bool
      reads this
    {
      now > expiresAt
    }

    function IsExclusive(): bool
      reads this
    {
      scope == "exclusive"
    }

    ghost function View(): Lock
      reads this
    {
      Lock(id, path, scope, tokens, expiresAt, creationDate)
    }

    /** At least one of the tokens of the lock must have been given. */
    method TokenGiven(header: string) returns (given: bool)
      ensures given <==> Given(tokens, header)
    {
      given := false;
      for i := 0 to |tokens|
        invariant given <==> exists k :: 0 <= k < i && Occurs(header, tokens[k])
      {
        if Occurs(header, tokens[i]) {
          given := true;
        }
      }
      assert given ==> Given(tokens, header);
    }

    /** Removes the first token that the header contains. */
    method DropToken(header: string)
      modifies this`tokens
      ensures tokens == Dropped(old(tokens), header)
    {
      var i := 0;
      assert tokens[0..] == tokens && tokens[..0] == [];
      while i < |tokens| && !Occurs(header, tokens[i])
        invariant i <= |tokens| && tokens == old(tokens)
        invariant Dropped(tokens, header) == tokens[..i] + Dropped(tokens[i..], header)
      {
        assert tokens[i..][1..] == tokens[i + 1..];
        assert tokens[..i + 1] == tokens[..i] + [tokens[i]];
        i := i + 1;
      }
      if i < |tokens| {
        assert tokens[i..][1..] == tokens[i + 1..];
        tokens := tokens[..i] + tokens[i + 1..];
      } else {
        assert tokens[i..] == [] && tokens[..i] + [] == tokens;
      }
    }
  }

  ghost function ViewOf(ls: seq<LockInfo>): (v: seq<Lock>)
    reads ls
    ensures |v| == |ls|
    ensures forall i :: 0 <= i < |ls| ==> v[i] == ls[i].View()
  {
    seq(|ls|, i requires 0 <= i < |ls| reads ls => ls[i].View())
  }

  /** A lock in force at or above the path has no token in the header. */
  ghost predicate KeptOut(ls: seq<LockInfo>, path: string, header: string, now: int)
    reads ls
  {
    exists l :: l in ls && now <= l.expiresAt && l.path <= path && forall t :: t in l.tokens ==> !Contains(header, t)
  }

  lemma KeptOutIff(ls: seq<LockInfo>, path: string, header: string, now: int)
    ensures KeptOut(ls, path, header, now) <==> Locked(ViewOf(ls), path, header, now)
  {
    var v := ViewOf(ls);
    forall l | l in ls ensures l.View() in v {
      var j :| 0 <= j < |ls| && ls[j] == l;
      assert v[j] in v;
    }
    forall l: Lock ensures l.Blocks(path, header, now) <==> KeepsOut(l, path, header, now) {
      BlocksIff(l, path, header, now);
    }
    if Locked(v, path, header, now) {
      var j :| 0 <= j < |v| && v[j].Blocks(path, header, now);
      assert ls[j] in ls && KeepsOut(ls[j].View(), path, header, now);
    }
    if l :| l in ls && KeepsOut(l.View(), path, header, now) {
      assert l.View() in v && l.View().Blocks(path, header, now);
    }
  }

  /** What the answer of a walk means for the objects of the list. */
  lemma WalkKeptOut(ls: seq<LockInfo>, path: string, header: string, now: int)
    ensures var w := Walk(ViewOf(ls), path, header, now);
      (w.0 ==> KeptOut(ls, path, header, now)) && (|w.1| == |ls| ==> (w.0 <==> KeptOut(ls, path, header, now)))
  {
    WalkExact(ViewOf(ls), path, header, now);
    KeptOutIff(ls, path, header, now);
  }

  /** No object stands twice in the list. */
  ghost predicate Distinct(ls: seq<LockInfo>) {
    forall i, j {:trigger Differ(ls[i], ls[j])} :: 0 <= i < j < |ls| ==> Differ(ls[i], ls[j])
  }

  ghost predicate Differ(a: LockInfo, b: LockInfo) {
    a != b
  }

  lemma DistinctRemove(ls: seq<LockInfo>, k: nat)
    requires Distinct(ls) && k < |ls|
    ensures Distinct(ls[..k] + ls[k + 1..])
  {
    var r := ls[..k] + ls[k + 1..];
    forall i, j | 0 <= i < j < |r| ensures Differ(r[i], r[j]) {
      var x, y := if i < k then i else i + 1, if j < k then j else j + 1;
      assert r[i] == ls[x] && r[j] == ls[y] && Differ(ls[x], ls[y]);
    }
  }

  /** Changing one object of the list changes the view at its position only. */
  lemma OthersDiffer(ls: seq<LockInfo>, k: nat)
    requires Distinct(ls) && k < |ls|
    ensures forall j :: 0 <= j < |ls| && j != k ==> ls[j] != ls[k]
  {
    forall j | 0 <= j < |ls| && j != k ensures ls[j] != ls[k] {
      assert if j < k then Differ(ls[j], ls[k]) else Differ(ls[k], ls[j]);
    }
  }

  class WebdavServlet {
    var resourceLocks: map<string, LockInfo>
    var collectionLocks: seq<LockInfo>
    var lockNullResources: map<string, seq<string>>
    ghost var gone: set<Lock>
    ghost var next: nat

    ghost function View(): Table
      reads this, collectionLocks
    {
      Table(ViewOf(collectionLocks), gone, next)
    }

    /** Nothing is ever put into the other two tables: their puts are commented out. */
    ghost predicate Valid()
      reads this
    {
      resourceLocks == map[] && lockNullResources == map[] && Distinct(collectionLocks)
    }

    constructor ()
      ensures Valid() && View() == EMPTY
    {
      resourceLocks, collectionLocks, lockNullResources := map[], [], map[];
      gone, next := {}, 0;
    }

    /** The loop of isLocked. The enumeration keeps a count; removing an element shifts the rest under it. */
    method CheckCollections(path: string, ifHeader: string, now: int) returns (locked: bool)
      requires Valid()
      modifies this`collectionLocks
      ensures Valid() && (forall l :: l in collectionLocks ==> l in old(collectionLocks))
      ensures (locked, ViewOf(collectionLocks)) == Walk(old(ViewOf(collectionLocks)), path, ifHeader, now)
    {
      ghost var cur := ViewOf(collectionLocks);
      ghost var w := Walk(cur, path, ifHeader, now);
      RemainingStart(cur, path, ifHeader, now);
      var count := 0;
      while count < |collectionLocks|
        invariant 0 <= count
        invariant Valid()
        invariant forall l :: l in collectionLocks ==> l in old(collectionLocks)
        invariant cur == ViewOf(collectionLocks) && Remaining(cur, count, path, ifHeader, now) == w
        decreases |collectionLocks| - count
      {
        var lock := collectionLocks[count];
        RemainingStep(cur, count, path, ifHeader, now);
        if lock.HasExpired(now) {
          RemoveElement(count);
          cur := cur[..count] + cur[count + 1..];
        } else if lock.path <= path {
          var tokenMatch := lock.TokenGiven(ifHeader);
          if !tokenMatch {
            return true;
          }
        }
        count := count + 1;
      }
      return false;
    }

    /** Vector.removeElement for the element at position k. */
    method RemoveElement(k: nat)
      requires Valid() && k < |collectionLocks|
      modifies this`collectionLocks
      ensures Valid() && collectionLocks == old(collectionLocks)[..k] + old(collectionLocks)[k + 1..]
      ensures ViewOf(collectionLocks) == old(ViewOf(collectionLocks))[..k] + old(ViewOf(collectionLocks))[k + 1..]
    {
      DistinctRemove(collectionLocks, k);
      collectionLocks := collectionLocks[..k] + collectionLocks[k + 1..];
    }

    method IsLocked(path: string, ifHeader: string, now: int) returns (locked: bool)
      requires Valid()
      modifies this
      ensures Valid() && (forall l :: l in collectionLocks ==> l in old(collectionLocks))
      // true only if a lock keeps the request out; false, with nothing removed, only if none does
      ensures locked ==> KeptOut(old(collectionLocks), path, ifHeader, now)
      ensures |collectionLocks| == |old(collectionLocks)| ==>
                (locked <==> KeptOut(old(collectionLocks), path, ifHeader, now))
      ensures locked == Walk(old(View()).locks, path, ifHeader, now).0
      ensures View() == Checked(old(View()), path, ifHeader, now)
    {
      ghost var t := View();
      WalkKeptOut(collectionLocks, path, ifHeader, now);
      locked := CheckCollections(path, ifHeader, now);
      gone := gone + Removed(t.locks, ViewOf(collectionLocks));
    }

    /** Sets the expiry of the locks on path whose token is given. */
    method DoRefresh(path: string, ifHeader: string, expiresAt: int, now: int)
      requires Valid()
      modifies collectionLocks
      ensures forall l :: l in collectionLocks ==>
                l.expiresAt == if old(l.path) == path && (exists t :: t in old(l.tokens) && Contains(ifHeader, t))
                               then expiresAt else old(l.expiresAt)
      ensures Valid() && View() == Step(old(View()), Refresh(path, ifHeader, expiresAt), now)
    {
      ghost var t := View();
      ghost var e := Refresh(path, ifHeader, expiresAt);
      var i := 0;
      while i < |collectionLocks|
        invariant 0 <= i <= |collectionLocks|
        invariant forall j :: 0 <= j < i ==> collectionLocks[j].View() == Refreshed(t.locks, e)[j]
        invariant forall j :: i <= j < |collectionLocks| ==> collectionLocks[j].View() == t.locks[j]
      {
        var toRenew := collectionLocks[i];
        OthersDiffer(collectionLocks, i);
        if path == toRenew.path {
          var given := toRenew.TokenGiven(ifHeader);
          if given {
            toRenew.expiresAt := expiresAt;
          }
        }
        i := i + 1;
      }
      assert ViewOf(collectionLocks) == Refreshed(t.locks, e);
      forall j | 0 <= j < |t.locks| ensures Given(t.locks[j].tokens, ifHeader) <==>
                                            exists k :: k in t.locks[j].tokens && Contains(ifHeader, k) {
        GivenIff(t.locks[j].tokens, ifHeader);
      }
    }

    /** LOCK with a body: a new lock, or another token on a shared one. */
    method DoLock(path: string, scope: string, lockToken: string, expiresAt: int, collection: bool, now: int)
      returns (status: Status)
      requires Valid()
      modifies this, collectionLocks
      ensures Valid() && (!collection ==> status == OK && View() == old(View()))
      ensures (status, View()) == Created(old(View()), Create(path, scope, lockToken, expiresAt, collection), now)
    {
      var lock := new LockInfo(path, scope, expiresAt, now);
      if !collection {
        // A single resource: the lock is answered with its token, and not stored.
        lock.tokens := lock.tokens + [lockToken];
        return OK;
      }
      var conflict := FindConflict(path, lock.IsExclusive(), now);
      if conflict {
        return CONFLICT;
      }
      status := StoreLock(lock, lockToken);
    }

    /** The part of doLock past the conflict scan: share the lock of this path, or add one. */
    method StoreLock(lock: LockInfo, lockToken: string) returns (status: Status)
      requires Valid() && lock.tokens == [] && lock !in collectionLocks
      modifies this, lock, collectionLocks
      ensures Valid()
      ensures (status, View()) == Stored(old(View()), old(lock.path), old(lock.scope),
                                         old(lock.expiresAt), old(lock.creationDate), lockToken)
    {
      var i := FindPath(lock.path);
      if i < |collectionLocks| {
        var currentLock := collectionLocks[i];
        if currentLock.IsExclusive() || lock.IsExclusive() {
          return LOCKED;
        }
        AddToken(i, lockToken);
      } else {
        AddLock(lock, lockToken);
      }
      return OK;
    }

    method AddToken(i: nat, lockToken: string)
      requires Valid() && i < |collectionLocks|
      modifies collectionLocks
      ensures Valid()
      ensures View() == old(View()).(locks :=
                old(View()).locks[i := old(View()).locks[i].(tokens := old(View()).locks[i].tokens + [lockToken])])
    {
      ghost var v := ViewOf(collectionLocks);
      OthersDiffer(collectionLocks, i);
      collectionLocks[i].tokens := collectionLocks[i].tokens + [lockToken];
      assert ViewOf(collectionLocks) == v[i := v[i].(tokens := v[i].tokens + [lockToken])];
    }

    method AddLock(lock: LockInfo, lockToken: string)
      requires Valid() && lock.tokens == [] && lock !in collectionLocks
      modifies this, lock
      ensures Valid()
      ensures View() == old(View()).(next := old(next) + 1,
                locks := old(View()).locks +
                  [Lock(old(next), old(lock.path), old(lock.scope), [lockToken],
                        old(lock.expiresAt), old(lock.creationDate))])
    {
      ghost var v := ViewOf(collectionLocks);
      lock.tokens := lock.tokens + [lockToken];
      lock.id := next;
      assert ViewOf(collectionLocks) == v;
      ghost var ls := collectionLocks;
      collectionLocks := collectionLocks + [lock];
      next := next + 1;
      assert ViewOf(collectionLocks) == v + [lock.View()];
      assert lock.tokens == [lockToken];
      forall i, j | 0 <= i < j < |collectionLocks| ensures Differ(collectionLocks[i], collectionLocks[j]) {
        if j < |ls| { assert Differ(ls[i], ls[j]); } else { assert ls[i] in ls; }
      }
    }

    /** The scan for locks at or below path; expired entries are dropped from the other table only. */
    method FindConflict(path: string, exclusive: bool, now: int) returns (conflict: bool)
      requires Valid()
      modifies this`resourceLocks
      ensures Valid() && View() == old(View())
      ensures conflict <==> AnyConflict(View().locks, path, exclusive, now)
    {
      var lockPaths: seq<string> := [];
      var i := 0;
      while i < |collectionLocks|
        invariant 0 <= i <= |collectionLocks| && resourceLocks == map[]
        invariant lockPaths != [] <==>
                  exists j :: 0 <= j < i && Conflicts(collectionLocks[j].View(), path, exclusive, now)
      {
        var currentLock := collectionLocks[i];
        if currentLock.HasExpired(now) {
          resourceLocks := resourceLocks - {currentLock.path};
        } else if path <= currentLock.path && (currentLock.IsExclusive() || exclusive) {
          lockPaths := lockPaths + [currentLock.path];
        }
        i := i + 1;
      }
      conflict := lockPaths != [];
      assert conflict ==> AnyConflict(View().locks, path, exclusive, now) by {
        if conflict {
          var j :| 0 <= j < i && Conflicts(collectionLocks[j].View(), path, exclusive, now);
          assert View().locks[j] in View().locks;
        }
      }
    }

    /** The position of the lock on exactly this path. */
    method FindPath(path: string) returns (i: nat)
      ensures i == Find(View().locks, path)
    {
      i := 0;
      assert View().locks[0..] == View().locks;
      while i < |collectionLocks| && collectionLocks[i].path != path
        invariant i <= |collectionLocks|
        invariant Find(View().locks, path) == i + Find(View().locks[i..], path)
      {
        assert View().locks[i..][1..] == View().locks[i + 1..];
        i := i + 1;
      }
    }

    /** UNLOCK as written in doUnlock1: true means refused because the path is locked. */
    method DoUnlock(path: string, ifHeader: string, lockTokenHeader: string, now: int) returns (refused: bool)
      requires Valid()
      modifies this, collectionLocks
      ensures Valid()
      // a lock keeps the request out, and no token is given back
      ensures refused ==>
                old(KeptOut(collectionLocks, path, ifHeader + lockTokenHeader, now)) &&
                forall l :: l in collectionLocks ==> l in old(collectionLocks) && l.tokens == old(l.tokens)
      ensures refused == Walk(old(View()).locks, path, ifHeader + lockTokenHeader, now).0
      ensures View() == Step(old(View()), Unlock(path, ifHeader + lockTokenHeader, lockTokenHeader), now)
    {
      refused := IsLocked(path, ifHeader + lockTokenHeader, now);
      if refused {
        return;
      }
      assert forall i :: 0 <= i < |collectionLocks| ==> collectionLocks[i] in old(collectionLocks);
      ReleaseToken(path, lockTokenHeader);
    }

    /** The loop of doUnlock1 over the one lock on this path. */
    method ReleaseToken(path: string, lockTokenHeader: string)
      requires Valid()
      modifies this`collectionLocks, this`lockNullResources, collectionLocks
      ensures Valid()
      ensures View() == old(View()).(locks := Released(old(View()).locks, path, lockTokenHeader))
    {
      ghost var v := ViewOf(collectionLocks);
      var i := FindPath(path);
      if i < |collectionLocks| {
        var lock := collectionLocks[i];
        OthersDiffer(collectionLocks, i);
        lock.DropToken(lockTokenHeader);
        assert ViewOf(collectionLocks) == v[i := v[i].(tokens := Dropped(v[i].tokens, lockTokenHeader))];
        if lock.tokens == [] {
          RemoveElement(i);
          lockNullResources := lockNullResources - {path};
          assert ViewOf(collectionLocks) == v[..i] + v[i + 1..];
        }
      }
    }
  }

  /** What the loop of isLocked still has to return when its count is k. */
  ghost function Remaining(cur: seq<Lock>, k: nat, path: string, header: string, now: int): (bool, seq<Lock>) {
    if k > |cur| then (false, cur)
    else var w := Walk(cur[k..], path, header, now); (w.0, cur[..k] + w.1)
  }

  lemma RemainingStart(cur: seq<Lock>, path: string, header: string, now: int)
    ensures Remaining(cur, 0, path, header, now) == Walk(cur, path, header, now)
    ensures forall k, c :: k >= |c| ==> Remaining(c, k, path, header, now) == (false, c)
  {
    assert cur[0..] == cur;
    var w := Walk(cur, path, header, now);
    assert cur[..0] + w.1 == w.1;
    forall k: nat, c: seq<Lock> | k >= |c| ensures Remaining(c, k, path, header, now) == (false, c) {
      if k == |c| {
        assert c[k..] == [] && c[..k] + [] == c;
      }
    }
  }

  lemma RemainingStep(cur: seq<Lock>, k: nat, path: string, header: string, now: int)
    requires k < |cur|
    ensures cur[k].Expired(now) ==>
              Remaining(cur, k, path, header, now) == Remaining(cur[..k] + cur[k + 1..], k + 1, path, header, now)
    ensures cur[k].Blocks(path, header, now) ==> Remaining(cur, k, path, header, now) == (true, cur)
    ensures !cur[k].Expired(now) && !cur[k].Blocks(path, header, now) ==>
              Remaining(cur, k, path, header, now) == Remaining(cur, k + 1, path, header, now)
  {
    var s := cur[k..];
    assert s[1..] == cur[k + 1..];
    assert cur[..k] + s == cur;
    if cur[k].Expired(now) {
      var r := cur[..k] + cur[k + 1..];
      if |s| > 1 {
        assert r[k + 1..] == s[2..];
        assert r[..k + 1] == cur[..k] + [s[1]];
        var w := Walk(s[2..], path, header, now);
        assert cur[..k] + ([s[1]] + w.1) == r[..k + 1] + w.1;
      } else {
        assert cur[..k] + [] == r;
      }
    } else if !cur[k].Blocks(path, header, now) {
      var w := Walk(s[1..], path, header, now);
      assert cur[..k + 1] + w.1 == cur[..k] + ([s[0]] + w.1);
    }
  }
}
