/**
 * The directory tree that Caimito reads into a flat container. Keys are the paths of the
 * objects ("/a/b"); a directory is an object whose content type is "application/directory".
 * A listing goes one level down from a marker, so an object is part of the tree at p only
 * if every directory between p and the object has a marker: `Visible`.
 */
module ObjectTree {
  import opened Paths

  datatype Obj = Obj(content: seq<bv8>, dir: bool)

  type Store = map<string, Obj>

  const MARKER := Obj([], true)

  ghost predicate IsDir(m: Store, p: string) {
    p == "" || (p in m && m[p].dir)
  }

  /** k is reached from p by listing directories. The root "" needs no marker. */
  ghost predicate Visible(m: Store, p: string, k: string)
    decreases |k|
  {
    if k == p then p == "" || p in m
    else Under(p, k) && k in m && Named(k) && IsDir(m, Parent(k)) &&
         (ParentUnder(p, k); Visible(m, p, Parent(k)))
  }

  /**
   * k is visible from p exactly if every path from p down to k is there: each of them below p is
   * an object with a name, and each of them above k is the root or a marked directory.
   */
  lemma {:induction false} VisibleIff(m: Store, p: string, k: string)
    requires k != p
    ensures Visible(m, p, k) <==>
            && p + "/" <= k
            && (forall a :: InTree(a, k) && Under(p, a) ==> a in m && Named(a))
            && (forall a :: Under(a, k) && InTree(p, a) ==> a == "" || (a in m && m[a].dir))
    decreases |k|
  {
    UnderText(p, k);
    if Under(p, k) {
      ParentUnder(p, k);
      var q := Parent(k);
      forall a ensures Under(a, k) <==> InTree(a, q) && Under(q, k) {
        if Under(a, k) { ParentUnder(a, k); }
        if InTree(a, q) { UnderTransitive(a, q, k); }
      }
      if q != p {
        VisibleIff(m, p, q);
        UnderText(p, q);
      } else {
        forall a | InTree(p, a) && InTree(a, q) ensures a == p {
        }
      }
    }
  }

  ghost function VisibleKeys(m: Store, p: string): set<string> {
    set k | k in m && Visible(m, p, k)
  }

  /** Every object has a marker for each of its ancestors below the root. */
  ghost predicate Closed(m: Store) {
    forall k :: ClosedAt(m, k)
  }

  ghost predicate ClosedAt(m: Store, k: string) {
    k in m ==> Named(k) && IsDir(m, Parent(k))
  }

  ghost predicate SameAt(m: Store, n: Store, k: string) {
    (k in m <==> k in n) && (k in m ==> m[k] == n[k])
  }

  lemma {:induction false} VisibleInTree(m: Store, p: string, k: string)
    requires Visible(m, p, k)
    ensures InTree(p, k) && (k != "" ==> k in m)
  {
  }

  lemma {:induction false} VisibleTransitive(m: Store, p: string, j: string, k: string)
    requires Visible(m, p, j) && Visible(m, j, k)
    ensures Visible(m, p, k)
    decreases |k|
  {
    if k != j && k != p {
      ParentUnder(j, k);
      VisibleTransitive(m, p, j, Parent(k));
      VisibleInTree(m, p, j);
      UnderTransitive(p, j, k);
    }
  }

  lemma {:induction false} VisibleBelow(m: Store, p: string, j: string, k: string)
    requires Visible(m, p, j) && Visible(m, p, k) && InTree(j, k)
    ensures Visible(m, j, k)
    decreases |k|
  {
    VisibleInTree(m, p, j);
    if k != j {
      ParentUnder(j, k);
      if k != p {
        VisibleBelow(m, p, j, Parent(k));
      }
    }
  }

  /** In a closed store the tree at an existing path is everything below it. */
  lemma {:induction false} ClosedVisible(m: Store, p: string, k: string)
    requires Closed(m) && (p == "" || p in m) && k in m && InTree(p, k)
    ensures Visible(m, p, k)
    decreases |k|
  {
    assert ClosedAt(m, k);
    if k != p {
      ParentUnder(p, k);
      if Parent(k) != p {
        ClosedVisible(m, p, Parent(k));
      }
    }
  }

  /** Visibility below p depends on the objects at and below p only. */
  lemma {:induction false} VisibleFrame(m: Store, n: Store, p: string, k: string)
    requires p != ""
    requires forall j :: InTree(p, j) ==> SameAt(m, n, j)
    ensures Visible(m, p, k) <==> Visible(n, p, k)
    decreases |k|
  {
    assert SameAt(m, n, p);
    if k != p && Under(p, k) {
      ParentUnder(p, k);
      VisibleFrame(m, n, p, Parent(k));
      assert SameAt(m, n, k) && SameAt(m, n, Parent(k));
    }
  }

  lemma {:induction false} VisibleKeysFrame(m: Store, n: Store, p: string)
    requires p != ""
    requires forall j :: InTree(p, j) ==> SameAt(m, n, j)
    ensures VisibleKeys(m, p) == VisibleKeys(n, p)
  {
    forall k ensures k in VisibleKeys(m, p) <==> k in VisibleKeys(n, p) {
      VisibleFrame(m, n, p, k);
      if Visible(m, p, k) {
        VisibleInTree(m, p, k);
        assert SameAt(m, n, k);
      }
    }
  }

  /** The entries a listing of p shows. */
  ghost predicate Listed(m: Store, p: string, c: string) {
    c in m && Named(c) && Under(p, c) && Parent(c) == p
  }

  lemma ListedVisible(m: Store, p: string, c: string)
    requires Listed(m, p, c) && IsDir(m, p)
    ensures Visible(m, p, c) && c != p && c != ""
  {
    assert Visible(m, p, p);
  }

  /** The tree below a directory is the disjoint union of the trees at its entries. */
  lemma {:induction false} VisibleSplit(m: Store, p: string, k: string) returns (c: string)
    requires Visible(m, p, k) && k != p
    ensures IsDir(m, p) && Listed(m, p, c) && Visible(m, c, k)
    decreases |k|
  {
    ParentUnder(p, k);
    if Parent(k) == p {
      c := k;
    } else {
      c := VisibleSplit(m, p, Parent(k));
      VisibleInTree(m, c, Parent(k));
      UnderTransitive(c, Parent(k), k);
    }
  }

  lemma SiblingsApart(m: Store, p: string, c: string, d: string, k: string)
    requires Listed(m, p, c) && Listed(m, p, d) && InTree(c, k) && InTree(d, k)
    ensures c == d
  {
    if |c| <= |d| {
      TreesNest(c, d, k);
      if Under(c, d) { ParentUnder(c, d); }
    } else {
      TreesNest(d, c, k);
      if Under(d, c) { ParentUnder(d, c); }
    }
  }

  // ---- What a copy and a delete do to the store ----

  /** n is m with the object at every key of `done` copied from the tree at src to the tree at dst. */
  ghost predicate IsCopy(m: Store, done: set<string>, src: string, dst: string, n: Store) {
    (forall k :: k in done ==>
       k in m && InTree(src, k) && Rebase(src, dst, k) in n && n[Rebase(src, dst, k)] == m[k]) &&
    (forall j {:trigger SameAt(m, n, j)} :: !(InTree(dst, j) && Rebase(dst, src, j) in done) ==> SameAt(m, n, j))
  }

  lemma CopyExists(m: Store, done: set<string>, src: string, dst: string) returns (n: Store)
    requires forall k :: k in done ==> k in m && InTree(src, k)
    ensures IsCopy(m, done, src, dst, n)
  {
    var image := set k | k in done :: Rebase(src, dst, k);
    forall k | k in done ensures Rebase(src, dst, k) in image && InTree(dst, Rebase(src, dst, k))
      && Rebase(dst, src, Rebase(src, dst, k)) == k {
      RebaseInverse(src, dst, k);
    }
    n := m + map j | j in image :: m[Rebase(dst, src, j)];
  }

  /** There is exactly one such store (CopyUnique). */
  ghost function CopyKeys(m: Store, done: set<string>, src: string, dst: string): (n: Store)
    requires forall k :: k in done ==> k in m && InTree(src, k)
    ensures IsCopy(m, done, src, dst, n)
  {
    assert exists n :: IsCopy(m, done, src, dst, n) by {
      var n := CopyExists(m, done, src, dst);
    }
    var n :| IsCopy(m, done, src, dst, n);
    n
  }

  lemma CopyUnique(m: Store, done: set<string>, src: string, dst: string, n: Store)
    requires IsCopy(m, done, src, dst, n)
    ensures n == CopyKeys(m, done, src, dst)
  {
    var e := CopyKeys(m, done, src, dst);
    forall j ensures SameAt(e, n, j) {
      if InTree(dst, j) && Rebase(dst, src, j) in done {
        RebaseInverse(dst, src, j);
        assert Rebase(src, dst, Rebase(dst, src, j)) == j;
      } else {
        assert SameAt(m, n, j) && SameAt(m, e, j);
      }
    }
    forall j ensures j in e <==> j in n { assert SameAt(e, n, j); }
    forall j | j in e ensures e[j] == n[j] { assert SameAt(e, n, j); }
  }

  ghost function CopyOf(m: Store, src: string, dst: string): Store
    requires src != ""
  {
    forall k | k in VisibleKeys(m, src) ensures InTree(src, k) { VisibleInTree(m, src, k); }
    CopyKeys(m, VisibleKeys(m, src), src, dst)
  }

  ghost function DeleteOf(m: Store, p: string): Store {
    m - VisibleKeys(m, p)
  }

  /** shown lists every entry of p once. */
  ghost predicate AllEntries(m: Store, p: string, shown: seq<string>) {
    (forall c :: c in shown <==> Listed(m, p, c)) &&
    (forall i, j :: 0 <= i < j < |shown| ==> shown[i] != shown[j])
  }

  ghost function KeysUnder(m: Store, p: string): set<string> {
    set k | k in m && Under(p, k)
  }

  /** The keys below an entry are fewer than the keys below its directory. */
  lemma EntrySmaller(m: Store, n: Store, p: string, c: string)
    requires Listed(m, p, c) && (forall k :: k in n && Under(p, k) ==> k in m)
    ensures |KeysUnder(n, c)| < |KeysUnder(m, p)|
  {
    forall k | k in KeysUnder(n, c) ensures k in KeysUnder(m, p) - {c} {
      UnderTransitive(p, c, k);
    }
    SubsetSize(KeysUnder(n, c), KeysUnder(m, p) - {c});
  }

  lemma {:induction false} SubsetSize<T>(a: set<T>, b: set<T>)
    requires a <= b
    ensures |a| <= |b|
  {
    if a != {} {
      var x :| x in a;
      SubsetSize(a - {x}, b - {x});
    }
  }
}
