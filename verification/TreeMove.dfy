/** What holds of every store while a tree is moved, and what COPY and MOVE with overwriting leave. */
module TreeMove {
  import opened Paths
  import opened ObjectTree
  import opened TreeDelete
  import opened TreeDetached
  import opened TreeCopy

  /** Nothing of the source tree is lost in s: each object is at its old or at its new place. */
  ghost predicate NothingLost(m: Store, src: string, dst: string, s: Store) {
    forall k :: k in VisibleKeys(m, src) ==>
      InTree(src, k) && (HasAt(s, k, m[k]) || HasAt(s, Rebase(src, dst, k), m[k]))
  }

  ghost predicate HasAt(s: Store, k: string, o: Obj) {
    k in s && s[k] == o
  }

  ghost predicate MoveStep(m: Store, src: string, dst: string, s: Store) {
    NothingLost(m, src, dst, s) &&
    (forall j {:trigger SameAt(m, s, j)} :: !InTree(src, j) && !IsImage(m, src, dst, j) ==> SameAt(m, s, j)) &&
    (Tidy(m, src, dst) ==> Closed(s))
  }

  ghost predicate MoveRun(m: Store, src: string, dst: string, tr: seq<Store>, n: nat) {
    forall t :: n <= t < |tr| ==> MoveStep(m, src, dst, tr[t])
  }

  ghost function MoveOf(m: Store, src: string, dst: string): Store
    requires src != ""
  {
    DeleteOf(CopyOf(m, src, dst), src)
  }

  /** A separate copy does not touch its source. */
  lemma CopyKeepsSource(m: Store, src: string, dst: string)
    requires src != "" && Separate(m, src, dst)
    ensures SameUnwritten(m, CopyOf(m, src, dst), src, dst)
    ensures VisibleKeys(CopyOf(m, src, dst), src) == VisibleKeys(m, src)
    ensures forall k :: k in VisibleKeys(m, src) ==> !IsImage(m, src, dst, k)
  {
    var c := CopyOf(m, src, dst);
    forall j | !IsImage(m, src, dst, j) ensures SameAt(m, c, j) {
    }
    SeparateVisible(m, c, src, dst);
    forall k | k in VisibleKeys(m, src) ensures !IsImage(m, src, dst, k) {
      ImageUnseen(m, src, dst, k);
    }
  }

  lemma MoveWhileCopying(m: Store, src: string, dst: string, s: Store)
    requires src != "" && Separate(m, src, dst) && CopyStep(m, src, dst, s)
    requires Tidy(m, src, dst) ==> Closed(s)
    ensures MoveStep(m, src, dst, s)
  {
    CopyKeepsSource(m, src, dst);
    forall k | k in VisibleKeys(m, src) ensures InTree(src, k) && HasAt(s, k, m[k]) {
      VisibleInTree(m, src, k);
      assert CopyStepAt(m, src, dst, s, k);
    }
    forall j | !InTree(src, j) && !IsImage(m, src, dst, j) ensures SameAt(m, s, j) {
      assert CopyStepAt(m, src, dst, s, j);
    }
  }

  lemma MoveWhileDeleting(m: Store, src: string, dst: string, s: Store)
    requires src != "" && Separate(m, src, dst) && DeleteStep(CopyOf(m, src, dst), src, s)
    ensures MoveStep(m, src, dst, s)
  {
    var c := CopyOf(m, src, dst);
    CopyKeepsSource(m, src, dst);
    forall k | k in VisibleKeys(m, src) ensures InTree(src, k) && HasAt(s, Rebase(src, dst, k), m[k]) {
      VisibleInTree(m, src, k);
      var r := Rebase(src, dst, k);
      RebaseInverse(src, dst, k);
      assert IsImage(m, src, dst, r);
      assert r in c && r !in VisibleKeys(c, src);
    }
    forall j | !InTree(src, j) && !IsImage(m, src, dst, j) ensures SameAt(m, s, j) {
      assert SameAt(m, c, j);
      if j in c && j !in s { VisibleInTree(c, src, j); }
    }
    if Tidy(m, src, dst) {
      CopyClosedIff(m, src, dst);
      DeleteStepClosed(c, src, s);
    }
  }

  /** Deleting what is not there changes nothing. */
  lemma MoveOfNothing(m: Store, src: string, dst: string, s: Store)
    requires src != "" && src !in m && DeleteStep(CopyOf(m, src, dst), src, s)
    ensures MoveStep(m, src, dst, s)
  {
    CopySingle(m, src, dst);
    forall k ensures !(k in m && Visible(m, src, k)) {
      if k in m && Visible(m, src, k) && k != src { var e := VisibleSplit(m, src, k); }
    }
    assert s == m;
  }

  lemma MoveRunJoin(m: Store, src: string, dst: string, mid: seq<Store>, tr: seq<Store>, n: nat)
    requires src != "" && Copyable(m, src, dst) && n <= |mid| && mid <= tr && (src !in m ==> n == |mid|)
    requires CopyRun(m, src, dst, mid, n) && DeleteTrace(CopyOf(m, src, dst), src, tr, |mid|)
    ensures MoveRun(m, src, dst, tr, n)
  {
    forall t | n <= t < |tr| ensures MoveStep(m, src, dst, tr[t]) {
      if t < |mid| {
        assert tr[t] == mid[t];
        MoveWhileCopying(m, src, dst, tr[t]);
      } else if src in m {
        MoveWhileDeleting(m, src, dst, tr[t]);
      } else {
        MoveOfNothing(m, src, dst, tr[t]);
      }
    }
  }

  /** At the end every object of the source tree is at its new place and only there. */
  lemma MoveFinal(m: Store, src: string, dst: string, j: string)
    requires src != "" && Separate(m, src, dst)
    ensures InTree(src, j) && j in VisibleKeys(m, src) ==>
              j !in MoveOf(m, src, dst) && HasAt(MoveOf(m, src, dst), Rebase(src, dst, j), m[j])
    ensures !(j in VisibleKeys(m, src)) && !(InTree(dst, j) && Rebase(dst, src, j) in VisibleKeys(m, src)) ==>
              SameAt(m, MoveOf(m, src, dst), j)
  {
    var c := CopyOf(m, src, dst);
    CopyKeepsSource(m, src, dst);
    if InTree(src, j) && j in VisibleKeys(m, src) {
      RebaseInverse(src, dst, j);
      assert IsImage(m, src, dst, Rebase(src, dst, j)) && Rebase(src, dst, j) in c;
    } else {
      assert (InTree(dst, j) && Rebase(dst, src, j) in VisibleKeys(m, src)) || SameAt(m, c, j);
    }
  }

  // ---- COPY and MOVE with overwriting ----

  /** The store after the destination was removed, if there was one. */
  ghost function Cleared(m: Store, dst: string): Store {
    if dst in m then DeleteOf(m, dst) else m
  }

  /** In a closed store nothing is left at or below a cleared destination. */
  lemma ClearedEmpty(m: Store, dst: string, j: string)
    requires Closed(m) && dst != "" && InTree(dst, j)
    ensures j !in Cleared(m, dst)
  {
    if j in m {
      if dst in m {
        ClosedVisible(m, dst, j);
      } else {
        ClosedAbove(m, dst, j);
      }
    }
  }

  lemma ClearedElsewhere(m: Store, dst: string, j: string)
    requires !InTree(dst, j)
    ensures SameAt(m, Cleared(m, dst), j)
  {
    if Visible(m, dst, j) { VisibleInTree(m, dst, j); }
  }

  lemma ClearedClosed(m: Store, dst: string)
    requires Closed(m) && dst != ""
    ensures Closed(Cleared(m, dst))
  {
    DeleteStepClosed(m, dst, m);
    if dst in m {
      assert DeleteStep(m, dst, DeleteOf(m, dst)) by {
        forall j, k | j in VisibleKeys(m, dst) && Under(j, k) && Visible(m, dst, k) ensures k !in DeleteOf(m, dst) {
        }
      }
      DeleteStepClosed(m, dst, DeleteOf(m, dst));
    }
  }

  /** The trees at src in m and at dst in r hold the same objects at the same relative paths. */
  ghost predicate SameTree(m: Store, src: string, r: Store, dst: string) {
    forall k :: InTree(src, k) ==> SameMoved(m, k, r, Rebase(src, dst, k))
  }

  ghost predicate SameMoved(m: Store, k: string, r: Store, j: string) {
    (k in m <==> j in r) && (k in m ==> r[j] == m[k])
  }

  lemma SourceAfterClear(m: Store, src: string, dst: string)
    requires src != "" && Detached(m, src, dst)
    ensures Detached(Cleared(m, dst), src, dst) && VisibleKeys(Cleared(m, dst), src) == VisibleKeys(m, src)
    ensures forall k :: k in VisibleKeys(m, src) ==> !InTree(dst, k)
    ensures SameOutside(m, Cleared(m, dst), dst)
  {
    forall k | !InTree(dst, k) ensures SameAt(m, Cleared(m, dst), k) {
      ClearedElsewhere(m, dst, k);
    }
    DetachedVisible(m, Cleared(m, dst), src, dst);
    forall k | k in VisibleKeys(m, src) ensures !InTree(dst, k) {
      if InTree(dst, k) { VisibleAttached(m, src, dst, k); }
    }
  }

  /** In a closed store every object at or below the source is part of its tree, and none is at or below dst. */
  lemma SourceKey(m: Store, src: string, dst: string, k: string)
    requires Closed(m) && src != "" && Detached(m, src, dst) && InTree(src, k) && k in m
    ensures k in VisibleKeys(m, src) && src in m && !InTree(dst, k)
  {
    if src !in m { ClosedAbove(m, src, k); }
    ClosedVisible(m, src, k);
    if InTree(dst, k) { VisibleAttached(m, src, dst, k); }
  }

  /**
   * COPY that overwrites: the destination tree is the source tree, without leftovers, and the
   * rest of the store is as before. If the source does not exist the destination is just gone.
   */
  lemma OverwriteCopyExact(m: Store, src: string, dst: string)
    requires Closed(m) && src != "" && dst != "" && Detached(m, src, dst)
    ensures SameTree(m, src, CopyOf(Cleared(m, dst), src, dst), dst)
    ensures forall j :: !InTree(dst, j) ==> SameAt(m, CopyOf(Cleared(m, dst), src, dst), j)
  {
    var e := Cleared(m, dst);
    var r := CopyOf(e, src, dst);
    SourceAfterClear(m, src, dst);
    forall k | InTree(src, k) ensures SameMoved(m, k, r, Rebase(src, dst, k)) {
      var j := Rebase(src, dst, k);
      RebaseInverse(src, dst, k);
      ClearedEmpty(m, dst, j);
      if k in m {
        SourceKey(m, src, dst, k);
        assert SameAt(m, e, k) && k in VisibleKeys(e, src);
      } else {
        assert SameAt(e, r, j);
      }
    }
    forall j | !InTree(dst, j) ensures SameAt(m, r, j) {
      ClearedElsewhere(m, dst, j);
      assert SameAt(e, r, j);
    }
  }

  /** MOVE that overwrites: as the copy, and nothing remains at the source. */
  lemma OverwriteMoveExact(m: Store, src: string, dst: string)
    requires Closed(m) && src != "" && dst != "" && Detached(m, src, dst)
    ensures SameTree(m, src, MoveOf(Cleared(m, dst), src, dst), dst)
    ensures forall j :: InTree(src, j) && !InTree(dst, j) ==> j !in MoveOf(Cleared(m, dst), src, dst)
    ensures forall j :: !InTree(src, j) && !InTree(dst, j) ==> SameAt(m, MoveOf(Cleared(m, dst), src, dst), j)
  {
    var e := Cleared(m, dst);
    var c := CopyOf(e, src, dst);
    var r := MoveOf(e, src, dst);
    OverwriteCopyExact(m, src, dst);
    SourceAfterClear(m, src, dst);
    CopyKeepsSource(e, src, dst);
    forall k | InTree(src, k) ensures SameMoved(m, k, r, Rebase(src, dst, k)) {
      MovedKept(m, src, dst, k);
    }
    forall j | InTree(src, j) && !InTree(dst, j) ensures j !in r {
      assert SameAt(m, c, j);
      if j in m {
        SourceKey(m, src, dst, j);
        assert j in VisibleKeys(c, src);
      }
    }
    forall j | !InTree(src, j) && !InTree(dst, j) ensures SameAt(m, r, j) {
      assert SameAt(m, c, j);
      if Visible(c, src, j) { VisibleInTree(c, src, j); }
    }
  }

  /** Deleting the source after the copy leaves what was copied. */
  lemma MovedKept(m: Store, src: string, dst: string, k: string)
    requires Closed(m) && src != "" && dst != "" && Detached(m, src, dst) && InTree(src, k)
    ensures SameMoved(m, k, MoveOf(Cleared(m, dst), src, dst), Rebase(src, dst, k))
  {
    var e := Cleared(m, dst);
    OverwriteCopyExact(m, src, dst);
    SourceAfterClear(m, src, dst);
    CopyKeepsSource(e, src, dst);
    assert SameMoved(m, k, CopyOf(e, src, dst), Rebase(src, dst, k));
    RebaseInverse(src, dst, k);
  }

  /**
   * A destination at or above the source, for example the same path with a slash behind it:
   * clearing it deletes the source, and then there is nothing to copy or to move.
   */
  lemma SourceCleared(m: Store, src: string, dst: string)
    requires Closed(m) && src != "" && dst != "" && InTree(dst, src)
    ensures forall k :: InTree(src, k) ==> k !in Cleared(m, dst)
    ensures CopyOf(Cleared(m, dst), src, dst) == Cleared(m, dst)
    ensures MoveOf(Cleared(m, dst), src, dst) == Cleared(m, dst)
  {
    var e := Cleared(m, dst);
    forall k | InTree(src, k) ensures k !in e {
      UnderTransitive(dst, src, k);
      ClearedEmpty(m, dst, k);
    }
    CopySingle(e, src, dst);
    forall k ensures k !in VisibleKeys(e, src) {
      if k in VisibleKeys(e, src) { VisibleInTree(e, src, k); }
    }
  }

  /**
   * The servlet never checks that the destination's parent exists: the store stays closed
   * after an overwriting COPY exactly if it does (or there was nothing to copy).
   */
  lemma OverwriteClosedIff(m: Store, src: string, dst: string)
    requires Closed(m) && src != "" && dst != "" && Detached(m, src, dst)
    ensures Closed(CopyOf(Cleared(m, dst), src, dst)) <==> Placeable(m, dst) || src !in m
  {
    var e := Cleared(m, dst);
    var r := CopyOf(e, src, dst);
    ClearedClosed(m, dst);
    OverwriteCopyExact(m, src, dst);
    SourceAfterClear(m, src, dst);
    assert SameAt(m, e, src);
    if src !in m {
      CopySingle(e, src, dst);
    } else if Placeable(m, dst) {
      ClearedTidy(m, src, dst);
      CopyClosedIff(e, src, dst);
    } else {
      assert SameMoved(m, src, r, Rebase(src, dst, src));
      assert Rebase(src, dst, src) == dst;
      var p := Parent(dst);
      assert !InTree(dst, p) || dst == "";
      assert SameAt(m, r, p);
      assert !ClosedAt(r, dst);
    }
  }

  // ---- Every store on the way of a request ----

  /** While a COPY or MOVE request runs: nothing of the source is lost, nothing elsewhere changes, markers stay. */
  ghost predicate RequestStep(m: Store, src: string, dst: string, s: Store) {
    NothingLost(m, src, dst, s) &&
    (forall j {:trigger SameAt(m, s, j)} :: !InTree(src, j) && !InTree(dst, j) ==> SameAt(m, s, j)) &&
    (Closed(m) && Placeable(m, dst) ==> Closed(s))
  }

  ghost predicate RequestRun(m: Store, src: string, dst: string, tr: seq<Store>, n: nat) {
    forall t :: n <= t < |tr| ==> RequestStep(m, src, dst, tr[t])
  }

  lemma StepWhileClearing(m: Store, src: string, dst: string, s: Store)
    requires src != "" && Detached(m, src, dst) && DeleteStep(m, dst, s)
    ensures RequestStep(m, src, dst, s)
  {
    SourceAfterClear(m, src, dst);
    forall k | k in VisibleKeys(m, src) ensures InTree(src, k) && HasAt(s, k, m[k]) {
      VisibleInTree(m, src, k);
      if Visible(m, dst, k) { VisibleInTree(m, dst, k); }
    }
    forall j | !InTree(src, j) && !InTree(dst, j) ensures SameAt(m, s, j) {
      if Visible(m, dst, j) { VisibleInTree(m, dst, j); }
    }
    if Closed(m) { DeleteStepClosed(m, dst, s); }
  }

  /** After the destination is cleared there is nothing to clash with. */
  lemma ClearedTidy(m: Store, src: string, dst: string)
    requires Closed(m) && dst != "" && Placeable(m, dst)
    ensures Tidy(Cleared(m, dst), src, dst)
  {
    var e := Cleared(m, dst);
    ClearedClosed(m, dst);
    ParentAbove(dst);
    ClearedElsewhere(m, dst, Parent(dst));
    forall k, j ensures !Clash(e, src, dst, k, j) {
      if k in VisibleKeys(e, src) && InTree(src, k) && Under(Rebase(src, dst, k), j) {
        RebaseInverse(src, dst, k);
        UnderTransitive(dst, Rebase(src, dst, k), j);
        ClearedEmpty(m, dst, j);
      }
    }
  }

  lemma StepAfterClearing(m: Store, src: string, dst: string, s: Store)
    requires src != "" && dst != "" && Detached(m, src, dst) && MoveStep(Cleared(m, dst), src, dst, s)
    ensures RequestStep(m, src, dst, s)
  {
    var e := Cleared(m, dst);
    SourceAfterClear(m, src, dst);
    forall k | k in VisibleKeys(m, src)
      ensures InTree(src, k) && (HasAt(s, k, m[k]) || HasAt(s, Rebase(src, dst, k), m[k]))
    {
      VisibleInTree(m, src, k);
      assert SameAt(m, e, k) && k in VisibleKeys(e, src);
    }
    forall j | !InTree(src, j) && !InTree(dst, j) ensures SameAt(m, s, j) {
      ClearedElsewhere(m, dst, j);
      assert SameAt(e, s, j);
    }
    if Closed(m) && Placeable(m, dst) {
      ClearedTidy(m, src, dst);
    }
  }

  lemma CopyRunSteps(m: Store, src: string, dst: string, tr: seq<Store>, n: nat)
    requires src != "" && Separate(m, src, dst) && CopyRun(m, src, dst, tr, n)
    ensures MoveRun(m, src, dst, tr, n)
  {
    forall t | n <= t < |tr| ensures MoveStep(m, src, dst, tr[t]) {
      MoveWhileCopying(m, src, dst, tr[t]);
    }
  }

  lemma RequestRunJoin(m: Store, src: string, dst: string, mid: seq<Store>, tr: seq<Store>, n: nat)
    requires src != "" && dst != "" && Detached(m, src, dst) && n <= |mid| && mid <= tr
    requires DeleteTrace(m, dst, mid, n) && MoveRun(Cleared(m, dst), src, dst, tr, |mid|)
    ensures RequestRun(m, src, dst, tr, n)
  {
    forall t | n <= t < |tr| ensures RequestStep(m, src, dst, tr[t]) {
      if t < |mid| {
        assert tr[t] == mid[t];
        StepWhileClearing(m, src, dst, tr[t]);
      } else {
        StepAfterClearing(m, src, dst, tr[t]);
      }
    }
  }
}
