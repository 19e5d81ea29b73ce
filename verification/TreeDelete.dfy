/** Lemmas about deleting a tree entry by entry, children before their directory. */
module TreeDelete {
  import opened Basics
  import opened Paths
  import opened ObjectTree

  /** s is m after some DELETEs of a run that empties the tree at p, children first. */
  ghost predicate DeleteStep(m: Store, p: string, s: Store) {
    (forall k :: k in s ==> k in m && s[k] == m[k]) &&
    (forall k :: k in m && k !in s ==> Visible(m, p, k)) &&
    (forall j, k :: j in m && j !in s && Under(j, k) && Visible(m, p, k) ==> k !in s)
  }

  /** The keys of whole trees at entries of p. */
  ghost predicate WholeEntries(m: Store, p: string, done: set<string>) {
    forall k :: k in done ==> exists c :: Listed(m, p, c) && Visible(m, c, k) && VisibleKeys(m, c) <= done
  }

  lemma EntryUntouched(m: Store, p: string, done: set<string>, c: string)
    requires WholeEntries(m, p, done) && Listed(m, p, c) && c !in done && IsDir(m, p)
    ensures forall k :: InTree(c, k) ==> k !in done
    ensures VisibleKeys(m - done, c) == VisibleKeys(m, c)
    ensures WholeEntries(m, p, done + VisibleKeys(m, c))
  {
    forall k | InTree(c, k) ensures k !in done {
      if k in done {
        var d :| Listed(m, p, d) && Visible(m, d, k) && VisibleKeys(m, d) <= done;
        VisibleInTree(m, d, k);
        SiblingsApart(m, p, c, d, k);
        ListedVisible(m, p, c);
        assert Visible(m, c, c);
      }
    }
    VisibleKeysFrame(m, m - done, c);
    var more := done + VisibleKeys(m, c);
    forall k | k in more ensures exists d :: Listed(m, p, d) && Visible(m, d, k) && VisibleKeys(m, d) <= more {
      if k in done {
        var d :| Listed(m, p, d) && Visible(m, d, k) && VisibleKeys(m, d) <= done;
        assert VisibleKeys(m, d) <= more;
      }
    }
  }

  lemma DeleteStepNest(m: Store, p: string, done: set<string>, c: string, s: Store)
    requires p != "" && IsDir(m, p) && Listed(m, p, c) && c !in done && WholeEntries(m, p, done)
    requires DeleteStep(m - done, c, s)
    ensures DeleteStep(m, p, s)
  {
    EntryUntouched(m, p, done, c);
    ListedVisible(m, p, c);
    forall k | k in m && k !in s ensures Visible(m, p, k) {
      if k in done {
        var d :| Listed(m, p, d) && Visible(m, d, k) && VisibleKeys(m, d) <= done;
        ListedVisible(m, p, d);
        VisibleTransitive(m, p, d, k);
      } else {
        assert k in VisibleKeys(m - done, c);
        VisibleTransitive(m, p, c, k);
      }
    }
    forall j, k | j in m && j !in s && Under(j, k) && Visible(m, p, k) ensures k !in s {
      VisibleBelow(m, p, j, k);
      if j in done {
        var d :| Listed(m, p, d) && Visible(m, d, j) && VisibleKeys(m, d) <= done;
        VisibleTransitive(m, d, j, k);
        assert k in VisibleKeys(m, d);
      } else {
        assert j in VisibleKeys(m - done, c);
        VisibleTransitive(m, c, j, k);
        assert k in VisibleKeys(m, c);
      }
    }
  }

  /** Deleting children first never leaves an object without a marker above it. */
  lemma DeleteStepClosed(m: Store, p: string, s: Store)
    requires Closed(m) && DeleteStep(m, p, s)
    ensures Closed(s)
  {
    forall k ensures ClosedAt(s, k) {
      assert ClosedAt(m, k);
      var q := Parent(k);
      if k in m && q in m && q !in s {
        var i := LastIndexOf(k, '/');
        assert Under(q, k);
        VisibleInTree(m, p, q);
        UnderTransitive(p, q, k);
        assert Visible(m, p, k);
      }
    }
  }

  /** The entries before i have been deleted with everything below them, the others not touched. */
  ghost predicate DeletedUpTo(m: Store, p: string, shown: seq<string>, i: nat, done: set<string>) {
    i <= |shown| && WholeEntries(m, p, done) && AllEntries(m, p, shown) &&
    (forall j :: 0 <= j < i ==> VisibleKeys(m, shown[j]) <= done) &&
    (forall j :: i <= j < |shown| ==> shown[j] !in done)
  }

  lemma DeletedOneMore(m: Store, p: string, shown: seq<string>, i: nat, done: set<string>)
    requires IsDir(m, p) && DeletedUpTo(m, p, shown, i, done) && i < |shown|
    ensures DeletedUpTo(m, p, shown, i + 1, done + VisibleKeys(m, shown[i]))
    ensures DeleteOf(m - done, shown[i]) == m - (done + VisibleKeys(m, shown[i]))
    ensures |KeysUnder(m - done, shown[i])| < |KeysUnder(m, p)|
    ensures shown[i] in m - done
  {
    var c := shown[i];
    EntryUntouched(m, p, done, c);
    EntrySmaller(m, m - done, p, c);
    forall j | i < j < |shown| ensures shown[j] !in VisibleKeys(m, c) {
      assert Listed(m, p, shown[j]);
      if InTree(c, shown[j]) {
        SiblingsApart(m, p, c, shown[j], shown[j]);
      } else if Visible(m, c, shown[j]) {
        VisibleInTree(m, c, shown[j]);
      }
    }
  }

  /** Every store of tr from position n on is m after some DELETEs below p, children first. */
  ghost predicate DeleteTrace(m: Store, p: string, tr: seq<Store>, n: nat) {
    forall t :: n <= t < |tr| ==> DeleteStep(m, p, tr[t])
  }

  lemma DeleteTraceNest(m: Store, p: string, shown: seq<string>, i: nat, done: set<string>,
                        before: seq<Store>, after: seq<Store>, n: nat)
    requires p != "" && IsDir(m, p) && DeletedUpTo(m, p, shown, i, done) && i < |shown|
    requires before <= after && n <= |before|
    requires DeleteTrace(m, p, before, n) && DeleteTrace(m - done, shown[i], after, |before|)
    ensures DeleteTrace(m, p, after, n)
  {
    forall t | n <= t < |after| ensures DeleteStep(m, p, after[t]) {
      if t < |before| {
        assert after[t] == before[t];
      } else {
        DeleteStepNest(m, p, done, shown[i], after[t]);
      }
    }
  }

  /** Once the trees at all entries are gone, only p itself is left. */
  lemma DeletedAll(m: Store, p: string, shown: seq<string>, done: set<string>)
    requires p != "" && IsDir(m, p) && DeletedUpTo(m, p, shown, |shown|, done)
    ensures done == VisibleKeys(m, p) - {p}
  {
    forall k | k in done ensures k in VisibleKeys(m, p) - {p} {
      var d :| Listed(m, p, d) && Visible(m, d, k) && VisibleKeys(m, d) <= done;
      ListedVisible(m, p, d);
      VisibleTransitive(m, p, d, k);
      VisibleInTree(m, d, k);
      UnderTransitive(p, d, k);
    }
    forall k | k in VisibleKeys(m, p) && k != p ensures k in done {
      var c := VisibleSplit(m, p, k);
      assert c in shown && k in VisibleKeys(m, c);
    }
  }

  lemma DeleteLast(m: Store, p: string, s: Store)
    requires p != ""
    requires s == if IsDir(m, p) then m - (VisibleKeys(m, p) - {p}) else m
    ensures s - {p} == DeleteOf(m, p) && DeleteStep(m, p, DeleteOf(m, p))
  {
    if IsDir(m, p) {
      assert Visible(m, p, p);
    } else {
      forall k | k in VisibleKeys(m, p) ensures k == p {
        if k != p {
          var c := VisibleSplit(m, p, k);
        }
      }
      assert p in m ==> p in VisibleKeys(m, p);
    }
  }
}
