/** Lemmas about copying a tree entry by entry into a place that is not part of it. */
module TreeCopy {
  import opened Basics
  import opened Paths
  import opened ObjectTree
  import opened TreeDetached

  /** src itself and the whole trees at its first i entries. */
  ghost function CopiedKeys(m: Store, src: string, shown: seq<string>, i: nat): set<string>
    requires i <= |shown|
  {
    set k | k in m && (k == src || exists j :: 0 <= j < i && Visible(m, shown[j], k))
  }

  lemma CopiedInTree(m: Store, src: string, shown: seq<string>, i: nat)
    requires src != "" && IsDir(m, src) && AllEntries(m, src, shown) && i <= |shown|
    ensures forall k :: k in CopiedKeys(m, src, shown, i) ==> k in m && InTree(src, k) && Visible(m, src, k)
    ensures forall k :: k in CopiedKeys(m, src, shown, i) && k != src ==>
              Parent(k) in CopiedKeys(m, src, shown, i) && IsDir(m, Parent(k))
    ensures src in CopiedKeys(m, src, shown, i)
  {
    forall k | k in CopiedKeys(m, src, shown, i) && k != src
      ensures k in m && InTree(src, k) && Visible(m, src, k)
      ensures Parent(k) in CopiedKeys(m, src, shown, i) && IsDir(m, Parent(k))
    {
      var j :| 0 <= j < i && Visible(m, shown[j], k);
      assert shown[j] in shown;
      ListedVisible(m, src, shown[j]);
      VisibleTransitive(m, src, shown[j], k);
      VisibleInTree(m, src, k);
    }
  }

  lemma CopiedAll(m: Store, src: string, shown: seq<string>)
    requires src != "" && IsDir(m, src) && AllEntries(m, src, shown)
    ensures CopiedKeys(m, src, shown, |shown|) == VisibleKeys(m, src)
  {
    CopiedInTree(m, src, shown, |shown|);
    forall k | k in VisibleKeys(m, src) && k != src ensures k in CopiedKeys(m, src, shown, |shown|) {
      var c := VisibleSplit(m, src, k);
      assert c in shown;
    }
  }

  lemma CopiedNotIn(m: Store, src: string, shown: seq<string>, i: nat, k: string)
    requires src != "" && IsDir(m, src) && AllEntries(m, src, shown) && i < |shown| && InTree(shown[i], k)
    ensures k !in CopiedKeys(m, src, shown, i)
  {
    assert shown[i] in shown;
    forall j | 0 <= j < i ensures !Visible(m, shown[j], k) {
      assert shown[j] in shown;
      if InTree(shown[j], k) {
        SiblingsApart(m, src, shown[j], shown[i], k);
      } else if Visible(m, shown[j], k) {
        VisibleInTree(m, shown[j], k);
      }
    }
  }

  /** The store while the entries of src are copied, after the first i of them. */
  ghost function CopiedStore(m: Store, src: string, dst: string, shown: seq<string>, i: nat): Store
    requires src != "" && IsDir(m, src) && AllEntries(m, src, shown) && i <= |shown|
  {
    CopiedInTree(m, src, shown, i);
    CopyKeys(m, CopiedKeys(m, src, shown, i), src, dst)
  }

  /** The tree at an entry, seen from the destination side. */
  lemma EntryPaths(m: Store, src: string, dst: string, c: string)
    requires src != "" && IsDir(m, src) && Listed(m, src, c) && Separate(m, src, dst)
    ensures Under(src, c) && Under(dst, Rebase(src, dst, c)) && Rebase(src, dst, c) != ""
    ensures IsImage(m, src, dst, Rebase(src, dst, c))
    ensures forall k :: k in VisibleKeys(m, c) ==> !IsImage(m, src, dst, k)
  {
    RebaseInverse(src, dst, c);
    ListedVisible(m, src, c);
    forall k | k in VisibleKeys(m, c) ensures !IsImage(m, src, dst, k) {
      VisibleTransitive(m, src, c, k);
      ImageUnseen(m, src, dst, k);
    }
  }

  /** The marker of an entry is PUT before the entry is copied; the tree at the entry is not touched. */
  lemma EntryIntact(m: Store, src: string, dst: string, shown: seq<string>, i: nat)
    requires src != "" && IsDir(m, src) && AllEntries(m, src, shown) && i < |shown| && Separate(m, src, dst)
    ensures Listed(m, src, shown[i]) && InTree(src, shown[i])
    ensures var cd := Rebase(src, dst, shown[i]); var n := CopiedStore(m, src, dst, shown, i)[cd := MARKER];
      Separate(n, shown[i], cd) && VisibleKeys(n, shown[i]) == VisibleKeys(m, shown[i]) &&
      |VisibleKeys(n, shown[i])| < |VisibleKeys(m, src)|
    ensures SameUnwritten(m, CopiedStore(m, src, dst, shown, i), src, dst)
    ensures !IsImage(m, src, dst, shown[i]) && shown[i] in m
  {
    var c := shown[i];
    assert c in shown;
    ListedVisible(m, src, c);
    ImageUnseen(m, src, dst, c);
    CopiedInTree(m, src, shown, i);
    var s := CopiedStore(m, src, dst, shown, i);
    forall j | !IsImage(m, src, dst, j) ensures SameAt(m, s, j) {
    }
    NestedSeparate(m, s, src, dst, c);
  }

  lemma CopiedOneMore(m: Store, src: string, shown: seq<string>, i: nat)
    requires i < |shown|
    ensures CopiedKeys(m, src, shown, i + 1) == CopiedKeys(m, src, shown, i) + VisibleKeys(m, shown[i])
  {
  }

  /** Copying a directory entry takes the store from i entries to i + 1. */
  lemma CopyDirEntry(m: Store, src: string, dst: string, shown: seq<string>, i: nat)
    requires src != "" && IsDir(m, src) && AllEntries(m, src, shown) && i < |shown| && Separate(m, src, dst)
    requires shown[i] != "" && InTree(src, shown[i])
    ensures var cd := Rebase(src, dst, shown[i]);
      CopyOf(CopiedStore(m, src, dst, shown, i)[cd := MARKER], shown[i], cd) == CopiedStore(m, src, dst, shown, i + 1)
  {
    EntryIntact(m, src, dst, shown, i);
    var c := shown[i];
    var cd := Rebase(src, dst, c);
    var n := CopiedStore(m, src, dst, shown, i)[cd := MARKER];
    var r := CopyOf(n, c, cd);
    CopiedInTree(m, src, shown, i);
    CopiedInTree(m, src, shown, i + 1);
    CopiedOneMore(m, src, shown, i);
    var done := CopiedKeys(m, src, shown, i + 1);
    forall k | k in done ensures Rebase(src, dst, k) in r && r[Rebase(src, dst, k)] == m[k] {
      if k in VisibleKeys(m, c) {
        CopyHit(m, src, dst, shown, i, k);
      } else {
        CopyMissed(m, src, dst, shown, i, k);
      }
    }
    forall j | !(InTree(dst, j) && Rebase(dst, src, j) in done) ensures SameAt(m, r, j) {
      CopyElsewhere(m, src, dst, shown, i, j);
    }
    CopyUnique(m, done, src, dst, r);
  }

  /** The keys at and below entry i get their images. */
  lemma CopyHit(m: Store, src: string, dst: string, shown: seq<string>, i: nat, k: string)
    requires src != "" && IsDir(m, src) && AllEntries(m, src, shown) && i < |shown| && Separate(m, src, dst)
    requires shown[i] != "" && InTree(src, shown[i]) && k in VisibleKeys(m, shown[i]) && InTree(src, k)
    ensures var cd := Rebase(src, dst, shown[i]);
      var r := CopyOf(CopiedStore(m, src, dst, shown, i)[cd := MARKER], shown[i], cd);
      Rebase(src, dst, k) in r && r[Rebase(src, dst, k)] == m[k]
  {
    EntryIntact(m, src, dst, shown, i);
    var c := shown[i];
    var cd := Rebase(src, dst, c);
    var s := CopiedStore(m, src, dst, shown, i);
    EntryPaths(m, src, dst, c);
    VisibleInTree(m, c, k);
    RebaseNest(src, dst, c, k);
    assert SameAt(m, s, k);
    assert k in VisibleKeys(s[cd := MARKER], c);
  }

  /** Images of the keys copied earlier survive the copy of entry i. */
  lemma CopyMissed(m: Store, src: string, dst: string, shown: seq<string>, i: nat, k: string)
    requires src != "" && IsDir(m, src) && AllEntries(m, src, shown) && i < |shown| && Separate(m, src, dst)
    requires shown[i] != "" && InTree(src, shown[i]) && k in CopiedKeys(m, src, shown, i) && InTree(src, k) && k in m
    ensures var cd := Rebase(src, dst, shown[i]);
      var r := CopyOf(CopiedStore(m, src, dst, shown, i)[cd := MARKER], shown[i], cd);
      Rebase(src, dst, k) in r && r[Rebase(src, dst, k)] == m[k]
  {
    EntryIntact(m, src, dst, shown, i);
    var c := shown[i];
    var cd := Rebase(src, dst, c);
    var n := CopiedStore(m, src, dst, shown, i)[cd := MARKER];
    var j := Rebase(src, dst, k);
    RebaseInverse(src, dst, k);
    if InTree(cd, j) {
      NestedBack(src, dst, c, j);
      CopiedNotIn(m, src, shown, i, k);
    }
    assert SameAt(n, CopyOf(n, c, cd), j);
  }

  lemma NestedBack(src: string, dst: string, c: string, j: string)
    requires InTree(src, c) && InTree(Rebase(src, dst, c), j)
    ensures InTree(dst, j) && InTree(c, Rebase(dst, src, j))
    ensures Rebase(Rebase(src, dst, c), c, j) == Rebase(dst, src, j)
  {
    var cd := Rebase(src, dst, c);
    RebaseInverse(src, dst, c);
    RebaseNest(dst, src, cd, j);
  }

  lemma CopyElsewhere(m: Store, src: string, dst: string, shown: seq<string>, i: nat, j: string)
    requires src != "" && IsDir(m, src) && AllEntries(m, src, shown) && i < |shown| && Separate(m, src, dst)
    requires shown[i] != "" && InTree(src, shown[i])
    requires !(InTree(dst, j) && Rebase(dst, src, j) in CopiedKeys(m, src, shown, i + 1))
    ensures var cd := Rebase(src, dst, shown[i]);
      SameAt(m, CopyOf(CopiedStore(m, src, dst, shown, i)[cd := MARKER], shown[i], cd), j)
  {
    EntryIntact(m, src, dst, shown, i);
    CopiedOneMore(m, src, shown, i);
    var c := shown[i];
    var cd := Rebase(src, dst, c);
    var s := CopiedStore(m, src, dst, shown, i);
    var n := s[cd := MARKER];
    RebaseInverse(src, dst, c);
    if InTree(cd, j) {
      NestedBack(src, dst, c, j);
      assert Rebase(cd, c, j) !in VisibleKeys(n, c);
    }
    assert SameAt(n, CopyOf(n, c, cd), j);
    ListedVisible(m, src, c);
    assert c in VisibleKeys(m, c);
    assert j != cd;
    assert SameAt(m, s, j);
  }

  /** So does copying a file entry. */
  lemma CopyFileEntry(m: Store, src: string, dst: string, shown: seq<string>, i: nat)
    requires src != "" && IsDir(m, src) && AllEntries(m, src, shown) && i < |shown| && Separate(m, src, dst)
    requires InTree(src, shown[i]) && !IsDir(m, shown[i]) && shown[i] in m
    ensures CopiedStore(m, src, dst, shown, i)[Rebase(src, dst, shown[i]) := m[shown[i]]] ==
            CopiedStore(m, src, dst, shown, i + 1)
  {
    var c := shown[i];
    var cd := Rebase(src, dst, c);
    var r := CopiedStore(m, src, dst, shown, i)[cd := m[c]];
    assert VisibleKeys(m, c) == {c} by {
      forall k | k in VisibleKeys(m, c) ensures k == c {
        if k != c { var e := VisibleSplit(m, c, k); }
      }
      assert Visible(m, c, c);
    }
    CopiedInTree(m, src, shown, i);
    CopiedInTree(m, src, shown, i + 1);
    CopiedOneMore(m, src, shown, i);
    RebaseInverse(src, dst, c);
    CopiedNotIn(m, src, shown, i, c);
    var done := CopiedKeys(m, src, shown, i + 1);
    forall k | k in done ensures Rebase(src, dst, k) in r && r[Rebase(src, dst, k)] == m[k] {
      RebaseInverse(src, dst, k);
      if Rebase(src, dst, k) == cd {
        assert k == c;
      }
    }
    forall j | !(InTree(dst, j) && Rebase(dst, src, j) in done) ensures SameAt(m, r, j) {
      assert j != cd;
      assert SameAt(m, CopiedStore(m, src, dst, shown, i), j);
    }
    CopyUnique(m, done, src, dst, r);
  }

  // ---- Every store on the way ----

  /** At j the store s still holds what m held, or already the copy, or the marker PUT ahead of it. */
  ghost predicate CopyStepAt(m: Store, src: string, dst: string, s: Store, j: string) {
    SameAt(m, s, j) ||
    (InTree(dst, j) && Rebase(dst, src, j) in VisibleKeys(m, src) && j in s &&
     (s[j] == m[Rebase(dst, src, j)] || (m[Rebase(dst, src, j)].dir && s[j] == MARKER)))
  }

  ghost predicate CopyStep(m: Store, src: string, dst: string, s: Store) {
    forall j :: CopyStepAt(m, src, dst, s, j)
  }

  /** Every store of tr from position n on is a step of the copy. */
  ghost predicate CopyTrace(m: Store, src: string, dst: string, tr: seq<Store>, n: nat) {
    forall t :: n <= t < |tr| ==> CopyStep(m, src, dst, tr[t])
  }

  lemma CopiedStoreStep(m: Store, src: string, dst: string, shown: seq<string>, i: nat)
    requires src != "" && IsDir(m, src) && AllEntries(m, src, shown) && i <= |shown|
    ensures CopyStep(m, src, dst, CopiedStore(m, src, dst, shown, i))
  {
    CopiedInTree(m, src, shown, i);
    var s := CopiedStore(m, src, dst, shown, i);
    forall j ensures CopyStepAt(m, src, dst, s, j) {
      if InTree(dst, j) && Rebase(dst, src, j) in CopiedKeys(m, src, shown, i) {
        RebaseInverse(dst, src, j);
        assert Rebase(src, dst, Rebase(dst, src, j)) == j;
      } else {
        assert SameAt(m, s, j);
      }
    }
  }

  lemma MarkerStep(m: Store, src: string, dst: string, shown: seq<string>, i: nat)
    requires src != "" && IsDir(m, src) && AllEntries(m, src, shown) && i < |shown|
    requires InTree(src, shown[i]) && IsDir(m, shown[i]) && shown[i] in m
    ensures CopyStep(m, src, dst, CopiedStore(m, src, dst, shown, i)[Rebase(src, dst, shown[i]) := MARKER])
  {
    CopiedStoreStep(m, src, dst, shown, i);
    assert shown[i] in shown;
    ListedVisible(m, src, shown[i]);
    var s := CopiedStore(m, src, dst, shown, i);
    var n := s[Rebase(src, dst, shown[i]) := MARKER];
    RebaseInverse(src, dst, shown[i]);
    forall j ensures CopyStepAt(m, src, dst, n, j) {
      assert CopyStepAt(m, src, dst, s, j);
    }
  }

  lemma CopyStepNest(m: Store, src: string, dst: string, shown: seq<string>, i: nat, s: Store)
    requires src != "" && IsDir(m, src) && AllEntries(m, src, shown) && i < |shown| && Separate(m, src, dst)
    requires InTree(src, shown[i]) && IsDir(m, shown[i]) && shown[i] in m
    requires CopyStep(CopiedStore(m, src, dst, shown, i)[Rebase(src, dst, shown[i]) := MARKER],
                      shown[i], Rebase(src, dst, shown[i]), s)
    ensures CopyStep(m, src, dst, s)
  {
    var c := shown[i];
    var cd := Rebase(src, dst, c);
    var n := CopiedStore(m, src, dst, shown, i)[cd := MARKER];
    EntryIntact(m, src, dst, shown, i);
    MarkerStep(m, src, dst, shown, i);
    ListedVisible(m, src, c);
    forall j ensures CopyStepAt(m, src, dst, s, j) {
      assert CopyStepAt(n, c, cd, s, j) && CopyStepAt(m, src, dst, n, j);
      if !SameAt(n, s, j) {
        NestedBack(src, dst, c, j);
        var k := Rebase(dst, src, j);
        assert k in VisibleKeys(n, c);
        VisibleTransitive(m, src, c, k);
        EntryPaths(m, src, dst, c);
        assert SameAt(m, CopiedStore(m, src, dst, shown, i), k);
        RebaseInverse(src, dst, c);
        assert InTree(dst, cd);
      }
    }
  }

  // ---- Markers for every ancestor ----

  /** dst can be created: its parent is a directory. */
  ghost predicate Placeable(m: Store, dst: string) {
    Named(dst) && IsDir(m, Parent(dst))
  }

  /** The source file k lands on a path that has the object j below it. */
  ghost predicate Clash(m: Store, src: string, dst: string, k: string, j: string) {
    k in VisibleKeys(m, src) && !m[k].dir && InTree(src, k) && j in m && Under(Rebase(src, dst, k), j)
  }

  ghost predicate NoClash(m: Store, src: string, dst: string) {
    forall k, j :: !Clash(m, src, dst, k, j)
  }

  ghost predicate Tidy(m: Store, src: string, dst: string) {
    Closed(m) && Placeable(m, dst) && NoClash(m, src, dst)
  }

  /** The markers above a copied object are copied too. */
  lemma ImageClosed(m: Store, src: string, dst: string, done: set<string>, k: string)
    requires src != "" && Separate(m, src, dst) && Closed(m) && Placeable(m, dst)
    requires forall k :: k in done ==> k in m && InTree(src, k)
    requires k in done && InTree(src, k) && (k != src ==> Parent(k) in done && IsDir(m, Parent(k)))
    ensures Named(Rebase(src, dst, k)) && IsDir(CopyKeys(m, done, src, dst), Parent(Rebase(src, dst, k)))
  {
    RebaseInverse(src, dst, k);
    if k == src {
      ParentAbove(dst);
      assert SameAt(m, CopyKeys(m, done, src, dst), Parent(dst));
    } else {
      assert ClosedAt(m, k);
      RebaseParent(src, dst, k);
      RebaseNamed(src, dst, k);
    }
  }

  lemma CopyKeysClosed(m: Store, src: string, dst: string, done: set<string>)
    requires src != "" && Separate(m, src, dst) && Tidy(m, src, dst)
    requires forall k :: k in done ==> k in m && InTree(src, k) && k in VisibleKeys(m, src)
    requires forall k :: k in done && k != src ==> Parent(k) in done && IsDir(m, Parent(k))
    ensures Closed(CopyKeys(m, done, src, dst))
  {
    var n := CopyKeys(m, done, src, dst);
    forall j | j in n ensures ClosedAt(n, j) {
      if InTree(dst, j) && Rebase(dst, src, j) in done {
        RebaseInverse(dst, src, j);
        ImageClosed(m, src, dst, done, Rebase(dst, src, j));
      } else {
        assert SameAt(m, n, j) && ClosedAt(m, j);
        ParentAbove(j);
        var q := Parent(j);
        if InTree(dst, q) && Rebase(dst, src, q) in done {
          RebaseInverse(dst, src, q);
          assert !Clash(m, src, dst, Rebase(dst, src, q), j);
        } else {
          assert SameAt(m, n, q);
        }
      }
    }
  }

  lemma ParentAbove(j: string)
    requires Named(j)
    ensures Under(Parent(j), j)
  {
  }

  lemma CopiedStoreClosed(m: Store, src: string, dst: string, shown: seq<string>, i: nat)
    requires src != "" && IsDir(m, src) && AllEntries(m, src, shown) && i <= |shown|
    requires Separate(m, src, dst) && Tidy(m, src, dst)
    ensures Closed(CopiedStore(m, src, dst, shown, i))
  {
    CopiedInTree(m, src, shown, i);
    CopyKeysClosed(m, src, dst, CopiedKeys(m, src, shown, i));
  }

  lemma MarkerClosed(s: Store, key: string)
    requires Closed(s) && Named(key) && IsDir(s, Parent(key))
    ensures Closed(s[key := MARKER])
  {
    ParentAbove(key);
    var n := s[key := MARKER];
    forall k ensures ClosedAt(n, k) {
      assert ClosedAt(s, k);
    }
  }

  /** PUTting the marker of an entry keeps the store closed. */
  lemma EntryMarkerClosed(m: Store, src: string, dst: string, shown: seq<string>, i: nat)
    requires src != "" && IsDir(m, src) && AllEntries(m, src, shown) && i < |shown|
    requires Separate(m, src, dst) && Tidy(m, src, dst) && InTree(src, shown[i])
    ensures Named(Rebase(src, dst, shown[i])) && Parent(Rebase(src, dst, shown[i])) == dst
    ensures IsDir(CopiedStore(m, src, dst, shown, i), dst)
    ensures Closed(CopiedStore(m, src, dst, shown, i)[Rebase(src, dst, shown[i]) := MARKER])
  {
    assert shown[i] in shown;
    CopiedStoreClosed(m, src, dst, shown, i);
    CopiedInTree(m, src, shown, i);
    RebaseParent(src, dst, shown[i]);
    RebaseNamed(src, dst, shown[i]);
    RebaseInverse(src, dst, src);
    MarkerClosed(CopiedStore(m, src, dst, shown, i), Rebase(src, dst, shown[i]));
  }

  /** The copy of a directory entry starts in order if the whole copy did. */
  lemma TidyNest(m: Store, src: string, dst: string, shown: seq<string>, i: nat)
    requires src != "" && IsDir(m, src) && AllEntries(m, src, shown) && i < |shown|
    requires Separate(m, src, dst) && Tidy(m, src, dst) && InTree(src, shown[i])
    ensures Tidy(CopiedStore(m, src, dst, shown, i)[Rebase(src, dst, shown[i]) := MARKER],
                 shown[i], Rebase(src, dst, shown[i]))
  {
    EntryMarkerClosed(m, src, dst, shown, i);
    var n := CopiedStore(m, src, dst, shown, i)[Rebase(src, dst, shown[i]) := MARKER];
    forall k, j ensures !Clash(n, shown[i], Rebase(src, dst, shown[i]), k, j) {
      NoClashStep(m, src, dst, shown, i, k, j);
    }
    ParentAbove(Rebase(src, dst, shown[i]));
  }

  lemma NoClashStep(m: Store, src: string, dst: string, shown: seq<string>, i: nat, k: string, j: string)
    requires src != "" && IsDir(m, src) && AllEntries(m, src, shown) && i < |shown|
    requires Separate(m, src, dst) && NoClash(m, src, dst) && InTree(src, shown[i])
    ensures !Clash(CopiedStore(m, src, dst, shown, i)[Rebase(src, dst, shown[i]) := MARKER],
                   shown[i], Rebase(src, dst, shown[i]), k, j)
  {
    EntryIntact(m, src, dst, shown, i);
    var c := shown[i];
    var s := CopiedStore(m, src, dst, shown, i);
    if k in VisibleKeys(m, c) {
      VisibleInTree(m, c, k);
      EntryPaths(m, src, dst, c);
      assert SameAt(m, s, k);
      RebaseNest(src, dst, c, k);
      ListedVisible(m, src, c);
      VisibleTransitive(m, src, c, k);
      assert !Clash(m, src, dst, k, j);
      RebaseInverse(src, dst, k);
      var rk := Rebase(src, dst, k);
      if !SameAt(m, s, j) && Under(rk, j) {
        UnderTransitive(dst, rk, j);
        RebaseUnder(dst, src, rk, j);
        UnderTransitive(c, k, Rebase(dst, src, j));
        CopiedNotIn(m, src, shown, i, Rebase(dst, src, j));
      }
    }
  }

  /** A file, or a path that is not there, is copied by one PUT or none. */
  lemma CopySingle(m: Store, src: string, dst: string)
    requires src != "" && !IsDir(m, src)
    ensures CopyOf(m, src, dst) == if src in m then m[dst := m[src]] else m
    ensures CopyStep(m, src, dst, CopyOf(m, src, dst))
    ensures Separate(m, src, dst) && Tidy(m, src, dst) ==> Closed(CopyOf(m, src, dst))
  {
    forall k | k in VisibleKeys(m, src) ensures k == src && src in m {
      if k != src { var e := VisibleSplit(m, src, k); }
    }
    assert src in m ==> Visible(m, src, src);
    RebaseInverse(src, dst, src);
    CopyUnique(m, VisibleKeys(m, src), src, dst, if src in m then m[dst := m[src]] else m);
    var r := CopyOf(m, src, dst);
    forall j ensures CopyStepAt(m, src, dst, r, j) {
      if j != dst { assert SameAt(m, r, j); }
    }
    if Separate(m, src, dst) && Tidy(m, src, dst) {
      CopyKeysClosed(m, src, dst, VisibleKeys(m, src));
    }
  }

  /** The first PUT of a directory copy. */
  lemma CopyFirst(m: Store, src: string, dst: string, shown: seq<string>)
    requires src != "" && src in m && m[src].dir && AllEntries(m, src, shown)
    ensures m[dst := m[src]] == CopiedStore(m, src, dst, shown, 0)
  {
    CopiedInTree(m, src, shown, 0);
    RebaseInverse(src, dst, src);
    CopyUnique(m, CopiedKeys(m, src, shown, 0), src, dst, m[dst := m[src]]);
  }

  /**
   * After a copy every object has its markers again if and only if no file of the source
   * landed on a path that has objects below it.
   */
  lemma CopyClosedIff(m: Store, src: string, dst: string)
    requires src != "" && Separate(m, src, dst) && Closed(m) && Placeable(m, dst)
    ensures Closed(CopyOf(m, src, dst)) <==> NoClash(m, src, dst)
  {
    forall k | k in VisibleKeys(m, src) ensures InTree(src, k) && (k != src ==> Parent(k) in VisibleKeys(m, src)) {
      VisibleInTree(m, src, k);
      if k != src { ParentUnder(src, k); }
    }
    if NoClash(m, src, dst) {
      CopyKeysClosed(m, src, dst, VisibleKeys(m, src));
    } else {
      var k, j :| Clash(m, src, dst, k, j);
      ClashNotClosed(m, src, dst, k, j);
    }
  }

  lemma ClashNotClosed(m: Store, src: string, dst: string, k: string, j: string)
    requires src != "" && dst != "" && Clash(m, src, dst, k, j)
    ensures !Closed(CopyOf(m, src, dst))
  {
    var n := CopyOf(m, src, dst);
    var q := Rebase(src, dst, k);
    CopyKeeps(m, src, dst, j);
    assert q in n && n[q] == m[k];
    if Closed(n) {
      ClosedAbove(n, q, j);
    }
  }

  lemma CopyKeeps(m: Store, src: string, dst: string, j: string)
    requires src != "" && j in m
    ensures j in CopyOf(m, src, dst)
  {
    if InTree(dst, j) && Rebase(dst, src, j) in VisibleKeys(m, src) {
      RebaseInverse(dst, src, j);
      VisibleInTree(m, src, Rebase(dst, src, j));
    } else {
      assert SameAt(m, CopyOf(m, src, dst), j);
    }
  }

  lemma {:induction false} ClosedAbove(m: Store, q: string, j: string)
    requires Closed(m) && j in m && Under(q, j)
    ensures IsDir(m, q)
    decreases |j|
  {
    assert ClosedAt(m, j);
    ParentUnder(q, j);
    if Parent(j) != q {
      ClosedAbove(m, q, Parent(j));
    }
  }

  // ---- Traces of the copy ----

  ghost predicate ClosedTrace(tr: seq<Store>, n: nat) {
    forall t :: n <= t < |tr| ==> Closed(tr[t])
  }

  /** The stores from position n on are steps of the copy, closed ones if the copy started tidy. */
  ghost predicate CopyRun(m: Store, src: string, dst: string, tr: seq<Store>, n: nat) {
    CopyTrace(m, src, dst, tr, n) && (Tidy(m, src, dst) ==> ClosedTrace(tr, n))
  }

  /** A copied directory entry: its marker at position |before|, its own copy after that. */
  lemma CopyRunDir(m: Store, src: string, dst: string, shown: seq<string>, i: nat,
                   before: seq<Store>, after: seq<Store>, n: nat)
    requires src != "" && IsDir(m, src) && AllEntries(m, src, shown) && i < |shown| && Separate(m, src, dst)
    requires InTree(src, shown[i]) && IsDir(m, shown[i]) && shown[i] in m
    requires before < after && n <= |before| && CopyRun(m, src, dst, before, n)
    requires after[|before|] == CopiedStore(m, src, dst, shown, i)[Rebase(src, dst, shown[i]) := MARKER]
    requires CopyRun(after[|before|], shown[i], Rebase(src, dst, shown[i]), after, |before| + 1)
    ensures CopyRun(m, src, dst, after, n)
  {
    forall t | n <= t < |after| ensures CopyStep(m, src, dst, after[t]) {
      if t < |before| {
        assert after[t] == before[t];
      } else if t == |before| {
        MarkerStep(m, src, dst, shown, i);
      } else {
        CopyStepNest(m, src, dst, shown, i, after[t]);
      }
    }
    if Tidy(m, src, dst) {
      EntryMarkerClosed(m, src, dst, shown, i);
      TidyNest(m, src, dst, shown, i);
      forall t | n <= t < |after| ensures Closed(after[t]) {
        if t < |before| {
          assert after[t] == before[t];
        }
      }
    }
  }

  lemma CopyRunFile(m: Store, src: string, dst: string, shown: seq<string>, i: nat,
                    before: seq<Store>, n: nat)
    requires src != "" && IsDir(m, src) && AllEntries(m, src, shown) && i <= |shown| && Separate(m, src, dst)
    requires n <= |before| && CopyRun(m, src, dst, before, n)
    ensures CopyRun(m, src, dst, before + [CopiedStore(m, src, dst, shown, i)], n)
  {
    CopiedStoreStep(m, src, dst, shown, i);
    if Tidy(m, src, dst) {
      CopiedStoreClosed(m, src, dst, shown, i);
    }
  }

  /** The first PUT of a copy does not change what a listing of the source shows. */
  lemma CopyListing(m: Store, src: string, dst: string, shown: seq<string>)
    requires src in m && IsDir(m, src) && Separate(m, src, dst) && AllEntries(m[dst := m[src]], src, shown)
    ensures AllEntries(m, src, shown)
  {
    forall c ensures c in shown <==> Listed(m, src, c) {
      assert c in shown <==> Listed(m[dst := m[src]], src, c);
      if c in shown { ListedBefore(m, src, dst, c); }
    }
  }

  /** The destination path that doCopy writes for an entry, for a directory and for a file. */
  lemma EntryDest(m: Store, src: string, dst: string, c: string)
    requires Listed(m, src, c) && InTree(src, c)
    ensures (c + "/")[|src + "/"|..] == c[|src| + 1..] + "/"
    ensures dst + "/" + c[|src| + 1..] == Rebase(src, dst, c)
    ensures LastIndexOf(c, '/') == |src|
    ensures StripSlash(Rebase(src, dst, c)) == Rebase(src, dst, c)
    ensures StripSlash(Rebase(src, dst, c) + "/") == Rebase(src, dst, c)
  {
    assert c[|src|..] == "/" + c[|src| + 1..];
    assert Rebase(src, dst, c)[|Rebase(src, dst, c)| - 1] == c[|c| - 1];
  }

  /** What the loop of doCopy knows about entry i before it copies it. */
  lemma EntryReady(m: Store, src: string, dst: string, shown: seq<string>, i: nat)
    requires src != "" && IsDir(m, src) && AllEntries(m, src, shown) && i < |shown| && Separate(m, src, dst)
    ensures shown[i] in shown && shown[i] in m && InTree(src, shown[i]) && Listed(m, src, shown[i])
    ensures shown[i] != "" && shown[i] != "/" && StripSlash(shown[i]) == shown[i]
    ensures SameAt(m, CopiedStore(m, src, dst, shown, i), shown[i])
  {
    EntryIntact(m, src, dst, shown, i);
    assert InTree(shown[i], shown[i]);
  }

  /** The path of the directory that doCopy makes for a directory entry c, whose own path is p. */
  lemma DirTarget(m: Store, src: string, dst: string, c: string, t: string, p: string, prefix: nat)
    requires Listed(m, src, c) && InTree(src, c)
    requires t == dst + "/" && p == c + "/" && prefix == |src + "/"|
    ensures prefix <= |p| && t + p[prefix..] == Rebase(src, dst, c) + "/"
    ensures StripSlash(t + p[prefix..]) == Rebase(src, dst, c)
  {
    EntryDest(m, src, dst, c);
    assert dst + "/" + (c[|src| + 1..] + "/") == Rebase(src, dst, c) + "/";
  }

  /** The same for a file entry. */
  lemma FileTarget(m: Store, src: string, dst: string, c: string, t: string)
    requires Listed(m, src, c) && InTree(src, c) && t == dst + "/"
    ensures t + c[LastIndexOf(c, '/') + 1..] == Rebase(src, dst, c)
    ensures StripSlash(Rebase(src, dst, c)) == Rebase(src, dst, c)
  {
    EntryDest(m, src, dst, c);
  }

  /** After its marker is PUT the source entry is still there, a directory. */
  lemma MarkerKept(m: Store, src: string, dst: string, shown: seq<string>, i: nat)
    requires src != "" && IsDir(m, src) && AllEntries(m, src, shown) && i < |shown| && Separate(m, src, dst)
    requires InTree(src, shown[i])
    ensures SameAt(m, CopiedStore(m, src, dst, shown, i)[Rebase(src, dst, shown[i]) := MARKER], shown[i])
  {
    EntryIntact(m, src, dst, shown, i);
    EntryPaths(m, src, dst, shown[i]);
    assert SameAt(m, CopiedStore(m, src, dst, shown, i), shown[i]);
  }

  /** The PUT of the directory itself, which precedes the loop over its entries. */
  lemma CopyStart(m: Store, src: string, dst: string, shown: seq<string>, s: Store, tr: seq<Store>)
    requires src != "" && src in m && m[src].dir && Separate(m, src, dst)
    requires s == m[dst := m[src]] && AllEntries(s, src, shown)
    requires |tr| > 0 && tr[|tr| - 1] == s
    ensures AllEntries(m, src, shown) && s == CopiedStore(m, src, dst, shown, 0)
    ensures CopyRun(m, src, dst, tr, |tr| - 1)
  {
    CopyListing(m, src, dst, shown);
    CopyFirst(m, src, dst, shown);
    CopyRunFile(m, src, dst, shown, 0, tr[..|tr| - 1], |tr| - 1);
    assert tr == tr[..|tr| - 1] + [s];
  }

  lemma CopyEnd(m: Store, src: string, dst: string, shown: seq<string>, s: Store)
    requires src != "" && IsDir(m, src) && AllEntries(m, src, shown)
    requires s == CopiedStore(m, src, dst, shown, |shown|)
    ensures s == CopyOf(m, src, dst)
  {
    CopiedAll(m, src, shown);
  }

  lemma SourceKept(m: Store, src: string, dst: string)
    requires src != "" && Separate(m, src, dst) && src in m
    ensures SameAt(m, CopyOf(m, src, dst), src)
  {
    assert Visible(m, src, src);
    ImageUnseen(m, src, dst, src);
  }
}
