/** The depth-limited walk of PROPFIND over the container (CaimitoWebdavServlet.doPropfind). */
module Propfind {
  import opened Paths
  import opened ObjectTree
  import opened OpenStack

  const SC_MULTI_STATUS := 207
  const SC_NOT_FOUND := 404

  /** How many segments k lies below p. */
  ghost function LevelOf(p: string, k: string): nat
    requires InTree(p, k)
    decreases |k|
  {
    if k == p then 0 else (ParentUnder(p, k); 1 + LevelOf(p, Parent(k)))
  }

  ghost predicate AtLevel(m: Store, p: string, k: string, l: int) {
    Visible(m, p, k) && InTree(p, k) && LevelOf(p, k) == l
  }

  ghost predicate NoneAt(m: Store, p: string, l: int) {
    forall k :: !AtLevel(m, p, k, l)
  }

  /** No tree has a gap: a node below level l has an ancestor at level l. */
  lemma {:induction false} LevelAbove(m: Store, p: string, k: string, l: nat) returns (a: string)
    requires Visible(m, p, k) && InTree(p, k) && l <= LevelOf(p, k)
    ensures AtLevel(m, p, a, l)
    decreases |k|
  {
    a := k;
    if l < LevelOf(p, k) {
      a := LevelAbove(m, p, Parent(k), l);
    }
  }

  /** The entries of a visible directory are the nodes whose parent it is. */
  lemma EntriesBelow(m: Store, p: string, c: string, k: string, l: nat)
    requires AtLevel(m, p, c, l)
    ensures IsDir(m, c) && Listed(m, c, k) <==> AtLevel(m, p, k, l + 1) && Parent(k) == c
  {
    if IsDir(m, c) && Listed(m, c, k) {
      UnderTransitive(p, c, k);
      assert k != p;
    }
    if AtLevel(m, p, k, l + 1) && Parent(k) == c {
      ParentUnder(p, k);
    }
  }

  ghost predicate Unique(s: seq<string>) {
    forall i, j :: 0 <= i < j < |s| ==> s[i] != s[j]
  }

  ghost predicate ByLevel(p: string, s: seq<string>) {
    (forall i :: 0 <= i < |s| ==> InTree(p, s[i])) &&
    (forall i, j :: 0 <= i < j < |s| ==> LevelOf(p, s[i]) <= LevelOf(p, s[j]))
  }

  /** Levels below l are done; of level l exactly the nodes on the stack are still to come. */
  ghost predicate WalkInv(m: Store, p: string, l: int, below: bool,
                          out: seq<string>, stack: seq<string>, stackBelow: seq<string>) {
    Unique(out) && Unique(stack) && Unique(stackBelow) && ByLevel(p, out) &&
    (forall k :: k in out <==> InTree(p, k) && Visible(m, p, k) &&
                               (LevelOf(p, k) < l || (LevelOf(p, k) == l && k !in stack))) &&
    (forall k :: k in stack ==> AtLevel(m, p, k, l)) &&
    (forall k :: k in stackBelow <==> below && AtLevel(m, p, k, l + 1) && Parent(k) in out)
  }

  lemma UniqueJoin(a: seq<string>, b: seq<string>)
    requires Unique(a) && Unique(b) && (forall k :: k in b ==> k !in a)
    ensures Unique(a + b)
  {
    var s := a + b;
    forall i, j | 0 <= i < j < |s| ensures s[i] != s[j] {
      if i < |a| <= j {
        assert s[i] in a && s[j] in b;
      }
    }
  }

  /** One node is taken off the stack and its entries are put on the stack below. */
  lemma WalkStep(m: Store, p: string, l: nat, below: bool,
                 out: seq<string>, stack: seq<string>, stackBelow: seq<string>, entries: seq<string>)
    requires WalkInv(m, p, l, below, out, stack, stackBelow) && stack != []
    requires if below && IsDir(m, stack[|stack| - 1]) then AllEntries(m, stack[|stack| - 1], entries) else entries == []
    ensures WalkInv(m, p, l, below, out + [stack[|stack| - 1]], stack[..|stack| - 1], stackBelow + entries)
  {
    var c := stack[|stack| - 1];
    var rest := stack[..|stack| - 1];
    var out' := out + [c];
    assert stack == rest + [c] && c in stack;
    assert AtLevel(m, p, c, l) && c !in out && c !in rest;
    UniqueJoin(out, [c]);
    forall i | 0 <= i < |out| ensures InTree(p, out[i]) && LevelOf(p, out[i]) <= l {
      assert out[i] in out;
    }
    forall k ensures k in out' <==>
      InTree(p, k) && Visible(m, p, k) && (LevelOf(p, k) < l || (LevelOf(p, k) == l && k !in rest))
    {
      assert k in stack <==> k in rest || k == c;
    }
    forall e | e in entries ensures e !in stackBelow {
      EntriesBelow(m, p, c, e, l);
    }
    UniqueJoin(stackBelow, entries);
    forall k ensures k in stackBelow + entries <==> below && AtLevel(m, p, k, l + 1) && Parent(k) in out' {
      EntriesBelow(m, p, c, k, l);
    }
  }

  /** The level is done: the stack below becomes the stack. */
  lemma WalkDown(m: Store, p: string, l: nat, out: seq<string>, stackBelow: seq<string>, below: bool)
    requires WalkInv(m, p, l, true, out, [], stackBelow)
    ensures WalkInv(m, p, l + 1, below, out, stackBelow, [])
    ensures stackBelow == [] ==> NoneAt(m, p, l + 1)
  {
    forall k ensures k in stackBelow <==> AtLevel(m, p, k, l + 1) {
      if AtLevel(m, p, k, l + 1) {
        ParentUnder(p, k);
        assert k != p;
      }
    }
    forall k | AtLevel(m, p, k, l + 2) ensures Parent(k) !in out {
      ParentUnder(p, k);
      assert k != p;
    }
  }

  /** The answer to PROPFIND of p with depth d: the nodes at most d levels down, once each, level by level. */
  ghost predicate Answer(m: Store, p: string, d: int, out: seq<string>) {
    Unique(out) && ByLevel(p, out) &&
    (forall k :: k in out <==> InTree(p, k) && Visible(m, p, k) && LevelOf(p, k) <= d)
  }

  /** The walk ends after level d, or before it at a level that has no nodes. */
  lemma WalkEnd(m: Store, p: string, l: nat, d: int, below: bool, out: seq<string>, stackBelow: seq<string>)
    requires WalkInv(m, p, l, below, out, [], stackBelow) && l <= d
    requires l == d || NoneAt(m, p, l)
    ensures Answer(m, p, d, out)
  {
    forall k ensures k in out <==> InTree(p, k) && Visible(m, p, k) && LevelOf(p, k) <= d {
      if InTree(p, k) && Visible(m, p, k) && l < d && l <= LevelOf(p, k) {
        var a := LevelAbove(m, p, k, l);
      }
    }
  }

  lemma WalkStart(m: Store, p: string, below: bool)
    requires Visible(m, p, p)
    ensures WalkInv(m, p, 0, below, [], [p], [])
  {
    forall k | AtLevel(m, p, k, 0) ensures k == p {
      if k != p { ParentUnder(p, k); }
    }
  }

  /** What the loop keeps. */
  ghost predicate Walking(m: Store, p: string, d: int, depth: int,
                          out: seq<string>, stack: seq<string>, stackBelow: seq<string>) {
    depth <= d &&
    (depth >= 0 ==> WalkInv(m, p, d - depth, depth > 0, out, stack, stackBelow)) &&
    (depth >= 0 && stack == [] ==> NoneAt(m, p, d - depth)) &&
    (depth < 0 ==> Answer(m, p, d, out))
  }

  /** A turn that leaves something on the stack stays on its level. */
  lemma WalkOn(m: Store, p: string, d: int, depth: nat, out: seq<string>, stack: seq<string>,
               stackBelow: seq<string>, entries: seq<string>)
    requires Walking(m, p, d, depth, out, stack, stackBelow) && |stack| > 1
    requires var top := stack[|stack| - 1];
      if depth > 0 && IsDir(m, top) then AllEntries(m, top, entries) else entries == []
    ensures Walking(m, p, d, depth, out + [stack[|stack| - 1]], stack[..|stack| - 1], stackBelow + entries)
  {
    WalkStep(m, p, d - depth, depth > 0, out, stack, stackBelow, entries);
  }

  /** The turn that empties the stack goes one level down, or ends the walk. */
  lemma WalkNext(m: Store, p: string, d: int, depth: nat, out: seq<string>, stack: seq<string>,
                 stackBelow: seq<string>, entries: seq<string>)
    requires Walking(m, p, d, depth, out, stack, stackBelow) && |stack| == 1
    requires if depth > 0 && IsDir(m, stack[0]) then AllEntries(m, stack[0], entries) else entries == []
    ensures Walking(m, p, d, depth - 1, out + [stack[0]], stackBelow + entries, [])
  {
    var l := d - depth;
    var out' := out + [stack[0]];
    WalkStep(m, p, l, depth > 0, out, stack, stackBelow, entries);
    if depth > 0 {
      WalkDown(m, p, l, out', stackBelow + entries, depth - 1 > 0);
    } else {
      WalkEnd(m, p, l, d, false, out', stackBelow + entries);
    }
  }

  /** One turn of the loop: the top of the stack is written, its entries are pushed below. */
  lemma WalkTurn(m: Store, p: string, d: int, depth: nat, out: seq<string>, stack: seq<string>,
                 stackBelow: seq<string>, entries: seq<string>)
    requires Walking(m, p, d, depth, out, stack, stackBelow) && stack != []
    requires var top := stack[|stack| - 1];
      if depth > 0 && IsDir(m, top) then AllEntries(m, top, entries) else entries == []
    ensures |stack| > 1 ==>
              Walking(m, p, d, depth, out + [stack[|stack| - 1]], stack[..|stack| - 1], stackBelow + entries)
    ensures |stack| == 1 ==> Walking(m, p, d, depth - 1, out + [stack[0]], stackBelow + entries, [])
  {
    if |stack| == 1 {
      WalkNext(m, p, d, depth, out, stack, stackBelow, entries);
    } else {
      WalkOn(m, p, d, depth, out, stack, stackBelow, entries);
    }
  }

  lemma WalkDone(m: Store, p: string, d: int, depth: int, out: seq<string>, stack: seq<string>, stackBelow: seq<string>)
    requires Walking(m, p, d, depth, out, stack, stackBelow) && (stack == [] || depth < 0)
    ensures Answer(m, p, d, out)
  {
    if depth >= 0 {
      WalkEnd(m, p, d - depth, d, depth > 0, out, stackBelow);
    }
  }

  lemma WalkOne(m: Store, p: string)
    requires Visible(m, p, p)
    ensures Answer(m, p, 0, [p])
  {
    WalkStart(m, p, false);
    WalkTurn(m, p, 0, 0, [], [p], [], []);
    assert [] + [p] == [p];
  }

  /** The objects that resource paths name. */
  function Keys(paths: seq<string>): (keys: seq<string>)
    ensures |keys| == |paths|
    ensures forall i :: 0 <= i < |paths| ==> keys[i] == StripSlash(paths[i])
  {
    seq(|paths|, i requires 0 <= i < |paths| => StripSlash(paths[i]))
  }

  predicate Bare(paths: seq<string>) {
    forall p :: p in paths ==> StripSlash(p) == p
  }

  /** Pushes the entries of the directory at currentPath on the stack of the level below. */
  method PushEntries(container: Container, currentPath: string, depth: int, stackBelow: seq<string>)
    returns (pushed: seq<string>, ghost entries: seq<string>)
    requires Bare(stackBelow)
    ensures pushed == stackBelow + entries && Bare(pushed)
    ensures var k := StripSlash(currentPath);
      if depth > 0 && IsDir(container.objs, k) then AllEntries(container.objs, k, entries) else entries == []
  {
    pushed, entries := stackBelow, [];
    var rob := new OpenStackResourceObj(container, currentPath);
    var isd := rob.IsDirectory();
    if isd && depth > 0 {
      var list, shown := rob.DoList();
      var i := 0;
      while i < |list|
        invariant 0 <= i <= |list| && pushed == stackBelow + shown[..i]
      {
        assert shown[..i + 1] == shown[..i] + [shown[i]];
        pushed := pushed + [list[i].path];
        i := i + 1;
      }
      entries := shown;
      forall c | c in shown ensures StripSlash(c) == c {
        EntryKey(container.objs, StripSlash(currentPath), c);
      }
    }
  }

  lemma KeysBare(paths: seq<string>)
    requires Bare(paths)
    ensures Keys(paths) == paths
  {
    forall i | 0 <= i < |paths| ensures Keys(paths)[i] == paths[i] {
      assert paths[i] in paths;
    }
  }

  /** Taking the top off the stack and writing it, in terms of keys. */
  lemma KeysTurn(out: seq<string>, stack: seq<string>)
    requires stack != []
    ensures Keys(out + [stack[|stack| - 1]]) == Keys(out) + [Keys(stack)[|stack| - 1]]
    ensures Keys(stack[..|stack| - 1]) == Keys(stack)[..|stack| - 1]
  {
  }

  /** The loop on paths: out starts with the requested path, everything else is a key. */
  ghost predicate WalkingPaths(m: Store, path: string, d: int, depth: int,
                               out: seq<string>, stack: seq<string>, stackBelow: seq<string>) {
    Walking(m, StripSlash(path), d, depth, Keys(out), Keys(stack), stackBelow) &&
    Bare(stackBelow) && Headed(path, out, stack)
  }

  predicate Headed(path: string, out: seq<string>, stack: seq<string>) {
    if out == [] then stack == [path] else out[0] == path && Bare(out[1..]) && Bare(stack)
  }

  lemma HeadedTurn(path: string, out: seq<string>, stack: seq<string>)
    requires Headed(path, out, stack) && stack != []
    ensures Headed(path, out + [stack[|stack| - 1]], stack[..|stack| - 1])
  {
    var top := stack[|stack| - 1];
    if out != [] {
      assert (out + [top])[1..] == out[1..] + [top] && top in stack;
    }
  }

  lemma PathsStart(m: Store, path: string, d: nat)
    requires Visible(m, StripSlash(path), StripSlash(path))
    ensures WalkingPaths(m, path, d, d, [], [path], [])
  {
    WalkStart(m, StripSlash(path), d > 0);
    assert Keys([path]) == [StripSlash(path)] && Keys([]) == [];
  }

  lemma PathsTurn(m: Store, path: string, d: int, depth: nat, out: seq<string>, stack: seq<string>,
                  stackBelow: seq<string>, pushed: seq<string>, entries: seq<string>)
    requires WalkingPaths(m, path, d, depth, out, stack, stackBelow) && stack != []
    requires pushed == stackBelow + entries && Bare(pushed)
    requires var k := StripSlash(stack[|stack| - 1]);
      if depth > 0 && IsDir(m, k) then AllEntries(m, k, entries) else entries == []
    ensures |stack| > 1 ==> WalkingPaths(m, path, d, depth, out + [stack[|stack| - 1]], stack[..|stack| - 1], pushed)
    ensures |stack| == 1 ==> WalkingPaths(m, path, d, depth - 1, out + [stack[0]], pushed, [])
  {
    WalkTurn(m, StripSlash(path), d, depth, Keys(out), Keys(stack), stackBelow, entries);
    KeysTurn(out, stack);
    KeysBare(pushed);
    HeadedTurn(path, out, stack);
  }

  lemma PathsDone(m: Store, path: string, d: int, depth: int, out: seq<string>, stack: seq<string>,
                  stackBelow: seq<string>)
    requires WalkingPaths(m, path, d, depth, out, stack, stackBelow) && (stack == [] || depth < 0)
    requires d >= 0 && Visible(m, StripSlash(path), StripSlash(path))
    ensures Answer(m, StripSlash(path), d, Keys(out)) && out != [] && out[0] == path && Bare(out[1..])
  {
    WalkDone(m, StripSlash(path), d, depth, Keys(out), Keys(stack), stackBelow);
    assert StripSlash(path) in Keys(out);
  }

  lemma PathsOne(m: Store, path: string)
    requires Visible(m, StripSlash(path), StripSlash(path))
    ensures Answer(m, StripSlash(path), 0, Keys([path])) && Bare([path][1..])
  {
    WalkOne(m, StripSlash(path));
    assert Keys([path]) == [StripSlash(path)];
  }

  /**
   * PROPFIND for an administrator: the paths whose properties are written, in order. Each is the
   * key of its object, but the first is the requested path, which may have a slash behind it.
   */
  method DoPropfind(container: Container, requestPath: string, maxDepth: nat) returns (status: int, out: seq<string>)
    ensures var path := StripSlash(requestPath);
      var p := StripSlash(path);
      if p == "" || p in container.objs
      then status == 207 && Answer(container.objs, p, maxDepth, Keys(out)) &&
           out != [] && out[0] == path && Bare(out[1..])
      else status == 404 && out == []
  {
    var path := StripSlash(requestPath);
    var depth: int := maxDepth;
    var ro := new OpenStackResourceObj(container, path);
    var present := ro.Exists();
    if !present {
      return SC_NOT_FOUND, [];
    }
    status := SC_MULTI_STATUS;
    out := [];
    ghost var m := container.objs;
    if depth == 0 {
      PathsOne(m, path);
      return status, [path];
    }
    var stack := [path];
    var stackBelow: seq<string> := [];
    PathsStart(m, path, maxDepth);
    while stack != [] && depth >= 0
      invariant WalkingPaths(m, path, maxDepth, depth, out, stack, stackBelow)
      decreases depth + 1, |stack|
    {
      var currentPath := stack[|stack| - 1];
      var pushed, entries := PushEntries(container, currentPath, depth, stackBelow);
      PathsTurn(m, path, maxDepth, depth, out, stack, stackBelow, pushed, entries);
      out, stack, stackBelow := out + [currentPath], stack[..|stack| - 1], pushed;
      if |stack| == 0 {
        depth, stack, stackBelow := depth - 1, stackBelow, [];
      }
    }
    PathsDone(m, path, maxDepth, depth, out, stack, stackBelow);
  }
}
