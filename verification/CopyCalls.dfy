/**
 * doCopy as nested calls, on any two paths: when the recursion ends (OpenStackResourceObj.doCopy).
 * The method in `OpenStack` is about the copies that do not read what they write.
 */
module CopyCalls {
  import opened Basics
  import opened Paths
  import opened ObjectTree
  import opened TreeDetached
  import opened TreeCopy
  import opened TreeMove

  /** The order in which the server lists the entries of a directory. */
  type Order = (Store, string) -> seq<string>

  ghost predicate IsListing(order: Order) {
    forall m, p :: AllEntries(m, p, order(m, p))
  }

  ghost predicate EntriesOf(src: string, l: seq<string>) {
    forall c :: c in l ==> Under(src, c)
  }

  lemma ListedEntries(order: Order, s: Store, src: string)
    requires IsListing(order)
    ensures AllEntries(s, src, order(s, src)) && EntriesOf(src, order(s, src))
  {
  }

  /** The store after doCopy, or None if its calls nest deeper than `depth`. */
  ghost function CopyCall(m: Store, src: string, dst: string, order: Order, depth: nat): Option<Store>
    requires IsListing(order)
    decreases depth, 0
  {
    if depth == 0 then None
    else
      var s := SelfPut(m, src, dst);
      ListedEntries(order, s, src);
      if IsDir(m, src) then CopyList(s, src, dst, order, order(s, src), depth - 1) else Some(s)
  }

  /** The loop over the entries l of src: the marker and the copy of a directory, the copy of a file. */
  ghost function CopyList(s: Store, src: string, dst: string, order: Order, l: seq<string>, depth: nat): Option<Store>
    requires IsListing(order) && EntriesOf(src, l)
    decreases depth, |l|, 1
  {
    if l == [] then Some(s)
    else
      var next := CopyTurn(s, src, dst, order, l, depth);
      if next.None? then None else CopyList(next.value, src, dst, order, l[1..], depth)
  }

  ghost function CopyTurn(s: Store, src: string, dst: string, order: Order, l: seq<string>, depth: nat): Option<Store>
    requires IsListing(order) && EntriesOf(src, l) && l != []
    decreases depth, |l|, 0
  {
    var c := l[0];
    assert c in l;
    var cd := Rebase(src, dst, c);
    if IsDir(s, c) then CopyCall(s[cd := MARKER], c, cd, order, depth) else Some(SelfPut(s, c, cd))
  }

  /** A copy writes at and below its destination only. */
  lemma {:induction false} CallWrites(m: Store, src: string, dst: string, order: Order, depth: nat, k: string)
    requires IsListing(order) && CopyCall(m, src, dst, order, depth).Some? && !InTree(dst, k)
    ensures SameAt(m, CopyCall(m, src, dst, order, depth).value, k)
    decreases depth, 0
  {
    var s := SelfPut(m, src, dst);
    ListedEntries(order, s, src);
    if IsDir(m, src) {
      ListWrites(s, src, dst, order, order(s, src), depth - 1, k);
    }
  }

  lemma {:induction false} ListWrites(s: Store, src: string, dst: string, order: Order,
                                      l: seq<string>, depth: nat, k: string)
    requires IsListing(order) && EntriesOf(src, l) && CopyList(s, src, dst, order, l, depth).Some? && !Under(dst, k)
    ensures SameAt(s, CopyList(s, src, dst, order, l, depth).value, k)
    decreases depth, |l|, 1
  {
    if l != [] {
      TurnWrites(s, src, dst, order, l, depth, k);
      var next := CopyTurn(s, src, dst, order, l, depth).value;
      ListWrites(next, src, dst, order, l[1..], depth, k);
    }
  }

  lemma {:induction false} TurnWrites(s: Store, src: string, dst: string, order: Order,
                                      l: seq<string>, depth: nat, k: string)
    requires IsListing(order) && EntriesOf(src, l) && l != [] && CopyTurn(s, src, dst, order, l, depth).Some?
    requires !Under(dst, k)
    ensures SameAt(s, CopyTurn(s, src, dst, order, l, depth).value, k)
    decreases depth, |l|, 0
  {
    var c := l[0];
    assert c in l;
    var cd := Rebase(src, dst, c);
    RebaseInverse(src, dst, c);
    if InTree(cd, k) { UnderTransitive(dst, cd, k); }
    if IsDir(s, c) {
      CallWrites(s[cd := MARKER], c, cd, order, depth, k);
    }
  }

  // ---- A copy to an attached destination never ends ----

  /** In the loop over src, the entry c is a directory on the way to dst, which has been PUT. */
  ghost predicate OnTheWay(s: Store, src: string, dst: string, c: string) {
    Under(src, dst) && Listed(s, src, c) && Visible(s, c, dst) && IsDir(s, dst)
  }

  /** The call nested at c is again a copy to an attached destination. */
  lemma NestedAttached(s: Store, src: string, dst: string, c: string)
    requires src != "" && OnTheWay(s, src, dst, c)
    ensures IsDir(s, c) && Attached(s[Rebase(src, dst, c) := MARKER], c, Rebase(src, dst, c))
  {
    var cd := Rebase(src, dst, c);
    var n := s[cd := MARKER];
    VisibleTop(s, c, dst);
    RebaseInverse(src, dst, c);
    RebaseParent(src, dst, c);
    RebaseNamed(src, dst, c);
    VisibleInTree(s, c, dst);
    UnderTransitive(c, dst, cd);
    ParentOutside(dst, cd);
    VisibleOutside(s, n, cd, c, dst);
  }

  lemma OnTheWayKept(s: Store, r: Store, src: string, dst: string, c: string)
    requires OnTheWay(s, src, dst, c) && forall k :: !Under(dst, k) ==> SameAt(s, r, k)
    ensures OnTheWay(r, src, dst, c)
  {
    VisibleInTree(s, c, dst);
    forall j | InTree(j, dst) ensures SameAt(s, r, j) {
    }
    VisibleSame(s, r, c, dst);
    assert SameAt(s, r, dst) && SameAt(s, r, c);
  }

  lemma FirstOnTheWay(m: Store, src: string, dst: string) returns (c: string)
    requires src != "" && Attached(m, src, dst)
    ensures IsDir(m, src) && src in m && OnTheWay(SelfPut(m, src, dst), src, dst, c)
  {
    var s := SelfPut(m, src, dst);
    VisibleTop(m, src, Parent(dst));
    AttachedSame(m, s, src, dst);
    assert Visible(s, src, dst);
    c := VisibleSplit(s, src, dst);
  }

  lemma {:induction false} NeverEnds(m: Store, src: string, dst: string, order: Order, depth: nat)
    requires IsListing(order) && src != "" && Attached(m, src, dst)
    ensures CopyCall(m, src, dst, order, depth).None?
    decreases depth, 0
  {
    if depth > 0 {
      var s := SelfPut(m, src, dst);
      ListedEntries(order, s, src);
      var c := FirstOnTheWay(m, src, dst);
      ListNeverEnds(s, src, dst, order, order(s, src), depth - 1, c);
    }
  }

  lemma {:induction false} ListNeverEnds(s: Store, src: string, dst: string, order: Order,
                                         l: seq<string>, depth: nat, c: string)
    requires IsListing(order) && EntriesOf(src, l) && src != "" && OnTheWay(s, src, dst, c) && c in l
    ensures CopyList(s, src, dst, order, l, depth).None?
    decreases depth, |l|, 1
  {
    if l[0] == c {
      NestedAttached(s, src, dst, c);
      NeverEnds(s[Rebase(src, dst, c) := MARKER], c, Rebase(src, dst, c), order, depth);
    } else if CopyTurn(s, src, dst, order, l, depth).Some? {
      var next := CopyTurn(s, src, dst, order, l, depth).value;
      forall k | !Under(dst, k) ensures SameAt(s, next, k) {
        TurnWrites(s, src, dst, order, l, depth, k);
      }
      OnTheWayKept(s, next, src, dst, c);
      ListNeverEnds(next, src, dst, order, l[1..], depth, c);
    }
  }

  // ---- Any other copy ends: a destination no longer than the source ----

  ghost predicate KeysUpTo(m: Store, n: nat) {
    forall k :: k in m ==> |k| <= n
  }

  /** No key gets longer, and every nested call starts at a longer one. */
  lemma {:induction false} ShortEnds(m: Store, src: string, dst: string, order: Order, n: nat, depth: nat)
    requires IsListing(order) && |dst| <= |src| <= n && KeysUpTo(m, n) && depth > n - |src|
    ensures CopyCall(m, src, dst, order, depth).Some?
    ensures KeysUpTo(CopyCall(m, src, dst, order, depth).value, n)
    decreases depth, 0
  {
    var s := SelfPut(m, src, dst);
    ListedEntries(order, s, src);
    if IsDir(m, src) {
      ShortListEnds(s, src, dst, order, order(s, src), n, depth - 1);
    }
  }

  lemma {:induction false} ShortListEnds(s: Store, src: string, dst: string, order: Order,
                                         l: seq<string>, n: nat, depth: nat)
    requires IsListing(order) && EntriesOf(src, l) && |dst| <= |src| && KeysUpTo(s, n) && depth >= n - |src|
    requires forall c :: c in l ==> |c| <= n
    ensures CopyList(s, src, dst, order, l, depth).Some?
    ensures KeysUpTo(CopyList(s, src, dst, order, l, depth).value, n)
    decreases depth, |l|, 1
  {
    if l != [] {
      var c := l[0];
      assert c in l;
      var cd := Rebase(src, dst, c);
      if IsDir(s, c) {
        ShortEnds(s[cd := MARKER], c, cd, order, n, depth);
      }
      ShortListEnds(CopyTurn(s, src, dst, order, l, depth).value, src, dst, order, l[1..], n, depth);
    }
  }

  // ---- Any other copy ends: a destination not above the source, and not attached ----

  lemma {:induction false} DetachedEnds(m: Store, src: string, dst: string, order: Order, depth: nat)
    requires IsListing(order) && src != "" && Detached(m, src, dst) && depth > |VisibleKeys(m, src)|
    ensures CopyCall(m, src, dst, order, depth).Some?
    decreases depth, 0
  {
    var s := SelfPut(m, src, dst);
    ListedEntries(order, s, src);
    if IsDir(m, src) {
      var l := order(s, src);
      forall c | c in l ensures Listed(m, src, c) { ListedBefore(m, src, dst, c); }
      DetachedListEnds(m, s, src, dst, order, l, depth - 1);
    }
  }

  lemma {:induction false} DetachedListEnds(m: Store, s: Store, src: string, dst: string, order: Order,
                                            l: seq<string>, depth: nat)
    requires IsListing(order) && EntriesOf(src, l) && src in m && IsDir(m, src) && src != ""
    requires Detached(m, src, dst) && SameOutside(m, s, dst) && depth >= |VisibleKeys(m, src)|
    requires forall c :: c in l ==> Listed(m, src, c)
    ensures CopyList(s, src, dst, order, l, depth).Some?
    decreases depth, |l|, 1
  {
    if l != [] {
      var c := l[0];
      assert c in l;
      if IsDir(s, c) {
        var cd := Rebase(src, dst, c);
        NestedDetached(m, s, src, dst, c);
        DetachedEnds(s[cd := MARKER], c, cd, order, depth);
      }
      var next := CopyTurn(s, src, dst, order, l, depth).value;
      forall k | !InTree(dst, k) ensures SameAt(m, next, k) {
        assert SameAt(m, s, k);
        TurnWrites(s, src, dst, order, l, depth, k);
      }
      DetachedListEnds(m, next, src, dst, order, l[1..], depth);
    }
  }

  // ---- The exact condition ----

  lemma {:induction false} LongestKey(keys: set<string>) returns (n: nat)
    ensures forall k :: k in keys ==> |k| <= n
  {
    n := 0;
    if keys != {} {
      var k :| k in keys;
      n := LongestKey(keys - {k});
      n := if n < |k| then |k| else n;
    }
  }

  ghost predicate Ends(m: Store, src: string, dst: string, order: Order)
    requires IsListing(order)
  {
    exists depth: nat :: CopyCall(m, src, dst, order, depth).Some?
  }

  /**
   * doCopy ends, for any two paths and any order of the listings, if and only if its destination
   * does not become part of the tree it reads: a path below a source directory, with a last
   * segment that listings show, in a directory that is reached from the source.
   */
  lemma CopyEndsIff(m: Store, src: string, dst: string, order: Order)
    requires IsListing(order) && src != ""
    ensures Ends(m, src, dst, order) <==> !Attached(m, src, dst)
  {
    if Attached(m, src, dst) {
      forall depth: nat ensures CopyCall(m, src, dst, order, depth).None? {
        NeverEnds(m, src, dst, order, depth);
      }
    } else if InTree(dst, src) {
      var n := LongestKey(m.Keys + {src});
      ShortEnds(m, src, dst, order, n, n - |src| + 1);
    } else {
      DetachedEnds(m, src, dst, order, |VisibleKeys(m, src)| + 1);
    }
  }

  /**
   * In a closed store the requests of `WebdavCopyMove` that are excluded are those whose copy never
   * ends: an overwriting COPY or MOVE ends exactly if it does not read what it writes, or if
   * clearing the destination took the source away.
   */
  lemma RequestEndsIff(m: Store, src: string, dst: string, order: Order)
    requires IsListing(order) && Closed(m) && src != "" && dst != ""
    ensures Ends(Cleared(m, dst), src, dst, order) <==> Copyable(Cleared(m, dst), src, dst)
  {
    var e := Cleared(m, dst);
    CopyEndsIff(e, src, dst, order);
    if InTree(dst, src) {
      ClearedEmpty(m, dst, src);
    }
    if Attached(e, src, dst) {
      VisibleTop(e, src, Parent(dst));
      assert Visible(e, src, src) && Rebase(src, dst, src) == dst;
    }
  }

  /** For example, a directory copied to a path directly below itself. */
  lemma CopyIntoItself(m: Store, src: string, name: string, order: Order)
    requires IsListing(order) && src != "" && src in m && m[src].dir && name != "" && '/' !in name
    ensures !Ends(m, src, src + "/" + name, order)
  {
    var dst := src + "/" + name;
    assert forall j :: |src| < j < |dst| ==> dst[j] == name[j - |src| - 1];
    assert dst[|src|] == '/' && dst[..|src|] == src;
    assert LastIndexOf(dst, '/') == |src|;
    CopyEndsIff(m, src, dst, order);
  }

  /** A separate copy leaves what the method of `OpenStack` leaves. */
  lemma {:induction false} CallExact(m: Store, src: string, dst: string, order: Order, depth: nat)
    requires IsListing(order) && src != "" && Separate(m, src, dst) && CopyCall(m, src, dst, order, depth).Some?
    ensures CopyCall(m, src, dst, order, depth) == Some(CopyOf(m, src, dst))
    decreases depth, 0
  {
    var s := SelfPut(m, src, dst);
    ListedEntries(order, s, src);
    if IsDir(m, src) {
      var shown := order(s, src);
      CopyListing(m, src, dst, shown);
      CopyFirst(m, src, dst, shown);
      assert shown[0..] == shown;
      ListExact(m, src, dst, order, shown, 0, depth - 1);
    } else {
      CopySingle(m, src, dst);
    }
  }

  lemma {:induction false} ListExact(m: Store, src: string, dst: string, order: Order,
                                     shown: seq<string>, i: nat, depth: nat)
    requires IsListing(order) && src != "" && IsDir(m, src) && Separate(m, src, dst)
    requires AllEntries(m, src, shown) && i <= |shown| && EntriesOf(src, shown[i..])
    requires CopyList(CopiedStore(m, src, dst, shown, i), src, dst, order, shown[i..], depth).Some?
    ensures CopyList(CopiedStore(m, src, dst, shown, i), src, dst, order, shown[i..], depth) ==
            Some(CopyOf(m, src, dst))
    decreases depth, |shown| - i
  {
    var s := CopiedStore(m, src, dst, shown, i);
    if i == |shown| {
      CopyEnd(m, src, dst, shown, s);
    } else {
      var c := shown[i];
      var cd := Rebase(src, dst, c);
      assert shown[i..][0] == c && shown[i..][1..] == shown[i + 1..];
      EntryReady(m, src, dst, shown, i);
      if IsDir(s, c) {
        EntryIntact(m, src, dst, shown, i);
        CallExact(s[cd := MARKER], c, cd, order, depth);
        CopyDirEntry(m, src, dst, shown, i);
      } else {
        CopyFileEntry(m, src, dst, shown, i);
      }
      ListExact(m, src, dst, order, shown, i + 1, depth);
    }
  }
}
