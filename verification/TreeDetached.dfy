/**
 * Copies to a path that may lie below or above their source: whether what is written at the
 * destination becomes part of the tree that is read.
 */
module TreeDetached {
  import opened Paths
  import opened ObjectTree

  /** What is PUT at dst becomes part of the tree that is read at src. */
  ghost predicate Attached(m: Store, src: string, dst: string) {
    Under(src, dst) && Named(dst) && IsDir(m, Parent(dst)) && Visible(m, src, Parent(dst))
  }

  lemma {:induction false} VisibleTop(m: Store, p: string, k: string)
    requires p != "" && Visible(m, p, k) && IsDir(m, k)
    ensures p in m && IsDir(m, p)
    decreases |k|
  {
    if k != p {
      ParentUnder(p, k);
      VisibleTop(m, p, Parent(k));
    }
  }

  /** Visibility of k depends on the objects above k. */
  lemma {:induction false} VisibleSame(m: Store, s: Store, p: string, k: string)
    requires Visible(m, p, k) && forall j :: InTree(j, k) ==> SameAt(m, s, j)
    ensures Visible(s, p, k)
    decreases |k|
  {
    assert SameAt(m, s, k);
    if k != p {
      ParentUnder(p, k);
      assert SameAt(m, s, Parent(k));
      forall j | InTree(j, Parent(k)) ensures SameAt(m, s, j) {
        UnderTransitive(j, Parent(k), k);
      }
      VisibleSame(m, s, p, Parent(k));
    }
  }

  /** The stores agree on everything outside the tree at q. */
  ghost predicate SameOutside(m: Store, s: Store, q: string) {
    forall k {:trigger SameAt(m, s, k)} :: !InTree(q, k) ==> SameAt(m, s, k)
  }

  lemma VisibleOutside(m: Store, s: Store, q: string, p: string, k: string)
    requires SameOutside(m, s, q) && Visible(m, p, k) && !InTree(q, k)
    ensures Visible(s, p, k)
  {
    forall j | InTree(j, k) ensures SameAt(m, s, j) {
      if InTree(q, j) { UnderTransitive(q, j, k); }
    }
    VisibleSame(m, s, p, k);
  }

  lemma ParentOutside(q: string, dst: string)
    requires Under(q, dst)
    ensures !InTree(dst, Parent(dst)) && !InTree(dst, q)
  {
    ParentUnder(q, dst);
  }

  lemma AttachedSame(m: Store, s: Store, src: string, dst: string)
    requires SameOutside(m, s, dst) && Attached(m, src, dst)
    ensures Attached(s, src, dst)
  {
    ParentOutside(src, dst);
    VisibleOutside(m, s, dst, src, Parent(dst));
    assert SameAt(m, s, Parent(dst));
  }

  /** Nothing at or below dst is visible from src unless dst is attached. */
  lemma {:induction false} VisibleAttached(m: Store, src: string, dst: string, k: string)
    requires Visible(m, src, k) && InTree(dst, k) && !InTree(dst, src)
    ensures Attached(m, src, dst)
    decreases |k|
  {
    ParentUnder(src, k);
    if k != dst {
      ParentUnder(dst, k);
      VisibleAttached(m, src, dst, Parent(k));
    }
  }

  // ---- Copies that do not read what they write ----

  /** The tree at src does not contain what is written at dst. */
  ghost predicate Detached(m: Store, src: string, dst: string) {
    !InTree(dst, src) && !Attached(m, src, dst)
  }

  lemma DetachedKey(m: Store, s: Store, src: string, dst: string, k: string)
    requires Detached(m, src, dst) && SameOutside(m, s, dst) && k in VisibleKeys(m, src)
    ensures k in VisibleKeys(s, src)
  {
    if InTree(dst, k) { VisibleAttached(m, src, dst, k); }
    VisibleOutside(m, s, dst, src, k);
    assert SameAt(m, s, k);
  }

  lemma DetachedVisible(m: Store, s: Store, src: string, dst: string)
    requires Detached(m, src, dst) && SameOutside(m, s, dst)
    ensures Detached(s, src, dst) && VisibleKeys(s, src) == VisibleKeys(m, src)
  {
    forall k | !InTree(dst, k) ensures SameAt(s, m, k) { assert SameAt(m, s, k); }
    if Attached(s, src, dst) { AttachedSame(s, m, src, dst); }
    forall k ensures k in VisibleKeys(m, src) <==> k in VisibleKeys(s, src) {
      if k in VisibleKeys(m, src) { DetachedKey(m, s, src, dst, k); }
      if k in VisibleKeys(s, src) { DetachedKey(s, m, src, dst, k); }
    }
  }

  /** An entry of src is detached from dst too. */
  lemma EntryDetached(m: Store, src: string, dst: string, c: string)
    requires IsDir(m, src) && Detached(m, src, dst) && Listed(m, src, c)
    ensures Detached(m, c, dst)
  {
    ListedVisible(m, src, c);
    if InTree(dst, c) {
      VisibleAttached(m, src, dst, c);
    }
    if Attached(m, c, dst) {
      VisibleTransitive(m, src, c, Parent(dst));
      UnderTransitive(src, c, dst);
    }
  }

  lemma EntryFewer(m: Store, src: string, c: string)
    requires IsDir(m, src) && src in m && Listed(m, src, c)
    ensures |VisibleKeys(m, c)| < |VisibleKeys(m, src)|
  {
    ListedVisible(m, src, c);
    forall k | k in VisibleKeys(m, c) ensures k in VisibleKeys(m, src) - {src} {
      VisibleTransitive(m, src, c, k);
      VisibleInTree(m, c, k);
      UnderTransitive(src, c, k);
    }
    assert Visible(m, src, src);
    SubsetSize(VisibleKeys(m, c), VisibleKeys(m, src) - {src});
  }

  /** The call nested at an entry is detached and has a smaller tree. */
  lemma NestedDetached(m: Store, s: Store, src: string, dst: string, c: string)
    requires IsDir(m, src) && src in m && Detached(m, src, dst) && SameOutside(m, s, dst) && Listed(m, src, c)
    ensures var cd := Rebase(src, dst, c);
      Detached(s[cd := MARKER], c, cd) && |VisibleKeys(s[cd := MARKER], c)| < |VisibleKeys(m, src)|
  {
    var cd := Rebase(src, dst, c);
    var n := s[cd := MARKER];
    RebaseInverse(src, dst, c);
    RebaseParent(src, dst, c);
    EntryDetached(m, src, dst, c);
    forall k | !InTree(dst, k) ensures SameAt(m, n, k) { assert SameAt(m, s, k); }
    DetachedVisible(m, n, c, dst);
    if InTree(cd, c) { UnderTransitive(dst, cd, c); }
    if Attached(n, c, cd) { VisibleAttached(n, c, dst, dst); }
    EntryFewer(m, src, c);
  }

  /** The first PUT of a copy: the object at the source, if there is one. */
  function SelfPut(m: Store, src: string, dst: string): Store {
    if src in m then m[dst := m[src]] else m
  }

  // ---- Copies that do not write what they read ----

  /** No object of the tree at src is copied back into that tree. */
  ghost predicate Scattered(m: Store, src: string, dst: string) {
    forall k :: k in VisibleKeys(m, src) ==> InTree(src, k) && !InTree(src, Rebase(src, dst, k))
  }

  /** What the copy writes is not part of the tree that it reads. */
  ghost predicate Separate(m: Store, src: string, dst: string) {
    Detached(m, src, dst) || Scattered(m, src, dst)
  }

  /** A copy whose result is stated: it is separate, or there is nothing to read. */
  ghost predicate Copyable(m: Store, src: string, dst: string) {
    Separate(m, src, dst) || src !in m
  }

  /** j is where some object of the tree at src is copied to. */
  ghost predicate IsImage(m: Store, src: string, dst: string, j: string) {
    InTree(dst, j) && Rebase(dst, src, j) in VisibleKeys(m, src)
  }

  /** The stores agree on everything that the copy does not write. */
  ghost predicate SameUnwritten(m: Store, s: Store, src: string, dst: string) {
    forall j {:trigger SameAt(m, s, j)} :: !IsImage(m, src, dst, j) ==> SameAt(m, s, j)
  }

  lemma ScatteredImage(m: Store, src: string, dst: string, j: string)
    requires Scattered(m, src, dst) && IsImage(m, src, dst, j)
    ensures !InTree(src, j)
  {
    RebaseInverse(dst, src, j);
  }

  lemma ImageUnseen(m: Store, src: string, dst: string, k: string)
    requires Separate(m, src, dst) && k in VisibleKeys(m, src)
    ensures !IsImage(m, src, dst, k)
  {
    if IsImage(m, src, dst, k) {
      if Detached(m, src, dst) {
        VisibleAttached(m, src, dst, k);
      } else {
        ScatteredImage(m, src, dst, k);
      }
    }
  }

  lemma ScatteredVisible(m: Store, s: Store, src: string, dst: string)
    requires src != "" && Scattered(m, src, dst) && SameUnwritten(m, s, src, dst)
    ensures Scattered(s, src, dst) && VisibleKeys(s, src) == VisibleKeys(m, src)
  {
    forall j | InTree(src, j) ensures SameAt(m, s, j) {
      if IsImage(m, src, dst, j) { ScatteredImage(m, src, dst, j); }
    }
    VisibleKeysFrame(m, s, src);
  }

  lemma SeparateVisible(m: Store, s: Store, src: string, dst: string)
    requires src != "" && Separate(m, src, dst) && SameUnwritten(m, s, src, dst)
    ensures Separate(s, src, dst) && VisibleKeys(s, src) == VisibleKeys(m, src)
  {
    if Detached(m, src, dst) {
      assert SameOutside(m, s, dst);
      DetachedVisible(m, s, src, dst);
    } else {
      ScatteredVisible(m, s, src, dst);
    }
  }

  lemma NestedScattered(m: Store, s: Store, src: string, dst: string, c: string)
    requires src != "" && IsDir(m, src) && Scattered(m, src, dst) && SameUnwritten(m, s, src, dst) && Listed(m, src, c)
    ensures var n := s[Rebase(src, dst, c) := MARKER];
      Scattered(n, c, Rebase(src, dst, c)) && VisibleKeys(n, c) == VisibleKeys(m, c)
  {
    var cd := Rebase(src, dst, c);
    var n := s[cd := MARKER];
    ListedVisible(m, src, c);
    forall j | InTree(c, j) ensures SameAt(m, n, j) {
      UnderTransitive(src, c, j);
      if IsImage(m, src, dst, j) { ScatteredImage(m, src, dst, j); }
      assert SameAt(m, s, j);
    }
    VisibleKeysFrame(m, n, c);
    forall k | k in VisibleKeys(n, c) ensures InTree(c, k) && !InTree(c, Rebase(c, cd, k)) {
      VisibleInTree(m, c, k);
      VisibleTransitive(m, src, c, k);
      RebaseNest(src, dst, c, k);
      if InTree(c, Rebase(c, cd, k)) { UnderTransitive(src, c, Rebase(c, cd, k)); }
    }
  }

  /** The call nested at an entry is separate and has a smaller tree, the one the entry had before. */
  lemma NestedSeparate(m: Store, s: Store, src: string, dst: string, c: string)
    requires src != "" && IsDir(m, src) && Separate(m, src, dst) && SameUnwritten(m, s, src, dst) && Listed(m, src, c)
    ensures var n := s[Rebase(src, dst, c) := MARKER];
      Separate(n, c, Rebase(src, dst, c)) && VisibleKeys(n, c) == VisibleKeys(m, c) &&
      |VisibleKeys(n, c)| < |VisibleKeys(m, src)|
  {
    EntryFewer(m, src, c);
    if Detached(m, src, dst) {
      var cd := Rebase(src, dst, c);
      var n := s[cd := MARKER];
      assert SameOutside(m, s, dst);
      NestedDetached(m, s, src, dst, c);
      EntryDetached(m, src, dst, c);
      RebaseInverse(src, dst, c);
      forall k | !InTree(dst, k) ensures SameAt(m, n, k) { assert SameAt(m, s, k); }
      DetachedVisible(m, n, c, dst);
    } else {
      NestedScattered(m, s, src, dst, c);
    }
  }

  /**
   * For a destination at or above an existing source a copy is separate exactly if no object of
   * the tree is copied onto another one of it; one path decides: the source's own name below
   * itself must not be part of the tree.
   */
  lemma SeparateAboveIff(m: Store, src: string, dst: string)
    requires src in m && InTree(dst, src)
    ensures Separate(m, src, dst) <==> forall k :: k in VisibleKeys(m, src) ==> !IsImage(m, src, dst, k)
    ensures Separate(m, src, dst) <==> src + src[|dst|..] !in VisibleKeys(m, src)
  {
    var again := src + src[|dst|..];
    assert Visible(m, src, src);
    assert src == dst + src[|dst|..];
    assert again[..|src|] == src && again[|src|..] == src[|dst|..];
    assert InTree(src, again) && Rebase(src, dst, again) == src;
    if again !in VisibleKeys(m, src) {
      forall k | k in VisibleKeys(m, src) ensures InTree(src, k) && !InTree(src, Rebase(src, dst, k)) {
        VisibleInTree(m, src, k);
        if InTree(src, Rebase(src, dst, k)) { BackIntoTree(m, src, dst, k); }
      }
      forall k | k in VisibleKeys(m, src) ensures !IsImage(m, src, dst, k) { ImageUnseen(m, src, dst, k); }
    } else {
      RebaseInverse(src, dst, again);
      assert IsImage(m, src, dst, src);
    }
  }

  /** If anything is copied back into the tree, then so is what lands on its root. */
  lemma {:induction false} BackIntoTree(m: Store, src: string, dst: string, k: string)
    requires InTree(dst, src) && Visible(m, src, k) && InTree(src, k) && InTree(src, Rebase(src, dst, k))
    ensures Visible(m, src, src + src[|dst|..])
    decreases |k|
  {
    var r := Rebase(src, dst, k);
    if r == src {
      assert k == src + k[|src|..] && src == dst + src[|dst|..];
      assert k[|src|..] == r[|dst|..];
    } else {
      RebaseParent(src, dst, k);
      ParentUnder(src, r);
      BackIntoTree(m, src, dst, Parent(k));
    }
  }

  /** The first PUT does not add dst to the entries of src. */
  lemma ListedBefore(m: Store, src: string, dst: string, c: string)
    requires src in m && IsDir(m, src) && Separate(m, src, dst) && Listed(SelfPut(m, src, dst), src, c)
    ensures Listed(m, src, c)
  {
    assert Visible(m, src, src);
    assert Rebase(src, dst, src) == dst;
  }
}
