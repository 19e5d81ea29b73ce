/** Slash-separated paths as the WebDAV layer handles them: plain strings such as "/a/b". */
module Paths {
  import opened Basics

  /** k lies strictly below p. */
  predicate Under(p: string, k: string) {
    |p| < |k| && k[..|p|] == p && k[|p|] == '/'
  }

  lemma UnderText(p: string, k: string)
    ensures Under(p, k) <==> p + "/" <= k
  {
  }

  predicate InTree(p: string, k: string) {
    k == p || Under(p, k)
  }

  /** k moved from the tree at p to the tree at q. */
  function Rebase(p: string, q: string, k: string): string
    requires InTree(p, k)
  {
    q + k[|p|..]
  }

  /** Everything before the last slash; the container root is "". */
  function Parent(k: string): (p: string)
    ensures |p| <= |k| && (k != "" ==> |p| < |k|)
  {
    var i := LastIndexOf(k, '/');
    if i < 0 then "" else k[..i]
  }

  /** k has a last segment that a listing shows: not empty, and not the root entry ".". */
  predicate Named(k: string) {
    var i := LastIndexOf(k, '/');
    0 <= i && i + 1 < |k| && k != "/."
  }

  function StripSlash(p: string): string {
    if p != "" && p[|p| - 1] == '/' then p[..|p| - 1] else p
  }

  /** One slash at the end goes, and nothing else. */
  lemma StripsOne(p: string)
    ensures StripSlash(p + "/") == p
    ensures StripSlash(p) == p || StripSlash(p) + "/" == p
    ensures p != "" && p[|p| - 1] != '/' ==> StripSlash(p) == p
  {
  }

  lemma ParentUnder(p: string, k: string)
    requires Under(p, k)
    ensures InTree(p, Parent(k)) && Under(Parent(k), k)
  {
    var i := LastIndexOf(k, '/');
    assert |p| <= i;
    if i != |p| {
      assert Parent(k)[..|p|] == p;
    }
  }

  lemma UnderTransitive(p: string, q: string, k: string)
    requires InTree(p, q) && InTree(q, k)
    ensures InTree(p, k) && (Under(p, q) || Under(q, k) ==> Under(p, k))
  {
    if Under(p, q) && Under(q, k) {
      assert k[..|q|][..|p|] == k[..|p|];
      assert k[..|q|][|p|] == k[|p|];
    }
  }

  /** Two paths above the same path are comparable. */
  lemma TreesNest(p: string, q: string, k: string)
    requires InTree(p, k) && InTree(q, k) && |p| <= |q|
    ensures InTree(p, q)
  {
    assert k[..|q|][..|p|] == k[..|p|];
    if |p| < |q| {
      assert k[..|q|][|p|] == k[|p|];
    }
  }

  /** Rebasing is a bijection between the two trees that keeps the nesting. */
  lemma RebaseInverse(p: string, q: string, k: string)
    requires InTree(p, k)
    ensures InTree(q, Rebase(p, q, k)) && Rebase(q, p, Rebase(p, q, k)) == k
    ensures Under(p, k) <==> Under(q, Rebase(p, q, k))
  {
    var r := Rebase(p, q, k);
    assert r[..|q|] == q && r[|q|..] == k[|p|..];
    assert k == k[..|p|] + k[|p|..];
  }

  lemma LastSlashOf(a: string, b: string)
    requires '/' in b
    ensures LastIndexOf(a + b, '/') == |a| + LastIndexOf(b, '/')
  {
    var i := LastIndexOf(b, '/');
    var w :| 0 <= w < |b| && b[w] == '/';
    assert w <= i;
    assert (a + b)[|a| + i] == '/';
    forall j | |a| + i < j < |a + b| ensures (a + b)[j] != '/' {
      assert (a + b)[j] == b[j - |a|];
    }
  }

  lemma RebaseParent(p: string, q: string, k: string)
    requires Under(p, k)
    ensures InTree(p, Parent(k)) && Rebase(p, q, Parent(k)) == Parent(Rebase(p, q, k))
  {
    ParentUnder(p, k);
    var tail := k[|p|..];
    assert tail[0] == '/';
    assert k == p + tail;
    LastSlashOf(p, tail);
    LastSlashOf(q, tail);
    var i := LastIndexOf(tail, '/');
    assert Parent(k) == p + tail[..i];
    assert Parent(q + tail) == q + tail[..i];
  }

  lemma RebaseNamed(p: string, q: string, k: string)
    requires Under(p, k) && p != "" && q != ""
    ensures Named(k) <==> Named(Rebase(p, q, k))
  {
    var tail := k[|p|..];
    assert tail[0] == '/';
    assert k == p + tail;
    LastSlashOf(p, tail);
    LastSlashOf(q, tail);
  }

  lemma RebaseUnder(p: string, q: string, k: string, l: string)
    requires InTree(p, k) && Under(k, l)
    ensures InTree(p, l) && Under(Rebase(p, q, k), Rebase(p, q, l))
  {
    UnderTransitive(p, k, l);
    RebaseInverse(p, k, k);
    var rk, rl := Rebase(p, q, k), Rebase(p, q, l);
    assert l[|p|..][..|k| - |p|] == l[..|k|][|p|..];
    assert rl[..|rk|] == q + l[|p|..][..|k| - |p|];
  }

  lemma RebaseNest(src: string, dst: string, c: string, k: string)
    requires InTree(src, c) && InTree(c, k)
    ensures InTree(src, k) && InTree(dst, Rebase(src, dst, c))
    ensures Rebase(c, Rebase(src, dst, c), k) == Rebase(src, dst, k)
    ensures InTree(Rebase(src, dst, c), Rebase(src, dst, k))
  {
    UnderTransitive(src, c, k);
    RebaseInverse(src, dst, c);
    RebaseInverse(c, Rebase(src, dst, c), k);
    assert k[|src|..] == c[|src|..] + k[|c|..] by {
      assert k == c + k[|c|..];
    }
  }
}
