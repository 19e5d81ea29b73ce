/**
 * One OpenStack container and the resource objects that present it as a directory tree
 * (OpenStackResourceObj.java). Every PUT and DELETE is one step; the ghost `trace` keeps
 * the state of the container after each of them.
 */
module OpenStack {
  import opened Basics
  import opened Paths
  import opened ObjectTree
  import opened TreeDelete
  import opened TreeDetached
  import opened TreeCopy
  import opened TreeMove

  /**
   * What a listing of prefix p with delimiter "/" returns, written as paths: the objects one
   * level down (the last segment may be empty) and a name ending in "/" for deeper objects.
   */
  ghost predicate Returned(m: Store, p: string, k: string) {
    (k in m && Under(p, k) && '/' !in k[|p| + 1..]) ||
    (exists o :: o in m && Below(p, o) && k == Rollup(p, o))
  }

  predicate Below(p: string, o: string) {
    Under(p, o) && '/' in o[|p| + 1..]
  }

  function Rollup(p: string, o: string): string
    requires Below(p, o)
  {
    o[..|p| + 1 + IndexOf(o[|p| + 1..], '/') + 1]
  }

  class Container {
    var objs: Store
    ghost var trace: seq<Store>

    constructor (initial: Store)
      ensures objs == initial && trace == []
    {
      objs := initial;
      trace := [];
    }

    method Put(key: string, o: Obj)
      modifies this
      ensures objs == old(objs)[key := o] && trace == old(trace) + [objs]
    {
      objs := objs[key := o];
      trace := trace + [objs];
    }

    /** PUT with X_COPY_FROM: a missing source answers 404 and stores nothing. */
    method PutCopy(from: string, key: string)
      modifies this
      ensures from in old(objs) ==> objs == old(objs)[key := old(objs)[from]] && trace == old(trace) + [objs]
      ensures from !in old(objs) ==> objs == old(objs) && trace == old(trace)
    {
      if from in objs {
        Put(key, objs[from]);
      }
    }

    method Delete(key: string)
      modifies this
      ensures objs == old(objs) - {key} && trace == old(trace) + [objs]
    {
      objs := objs - {key};
      trace := trace + [objs];
    }

    /** GET on the container with delimiter "/": the order of the names is the server's. */
    method List(p: string) returns (names: seq<string>)
      ensures forall k :: k in names <==> Returned(objs, p, k)
      ensures forall i, j :: 0 <= i < j < |names| ==> names[i] != names[j]
    {
      var direct := set k | k in objs && Under(p, k) && '/' !in k[|p| + 1..];
      var rolled := set o | o in objs && Below(p, o) :: Rollup(p, o);
      var rest := direct + rolled;
      names := [];
      while rest != {}
        invariant forall k :: k in names || k in rest <==> Returned(objs, p, k)
        invariant forall k :: k in names ==> k !in rest
        invariant forall i, j :: 0 <= i < j < |names| ==> names[i] != names[j]
        decreases rest
      {
        var k :| k in rest;
        names := names + [k];
        rest := rest - {k};
      }
    }
  }

  /** Skipping "." and the names that end in "/" leaves exactly the entries of the directory. */
  lemma ReturnedListed(m: Store, p: string, k: string)
    ensures Returned(m, p, k) ==> k != ""
    ensures Returned(m, p, k) && k != "/." && k[|k| - 1] != '/' <==> Listed(m, p, k)
  {
    if k in m && Under(p, k) && '/' !in k[|p| + 1..] && k[|k| - 1] != '/' {
      ParentIs(p, k);
    }
    if Listed(m, p, k) {
      var i := LastIndexOf(k, '/');
      assert |p| == i;
      assert forall j :: |p| + 1 <= j < |k| ==> k[j] != '/';
    }
  }

  lemma ParentIs(p: string, k: string)
    requires Under(p, k) && '/' !in k[|p| + 1..]
    ensures Parent(k) == p && LastIndexOf(k, '/') == |p|
  {
    var i := LastIndexOf(k, '/');
    assert forall j :: |p| + 1 <= j < |k| ==> k[|p| + 1..][j - |p| - 1] == k[j];
  }

  /** A resource path together with what `init` remembers about it. */
  class OpenStackResourceObj {
    const container: Container
    var path: string
    var init: bool
    var ex: bool
    var isd: bool

    constructor (c: Container, p: string)
      ensures container == c && path == p && !init && !ex && !isd
    {
      container := c;
      path := p;
      init, ex, isd := false, false, false;
    }

    predicate IsRoot()
      reads this
    {
      path == "/" || path == ""
    }

    /** The name under which the container holds this resource. */
    function Key(): string
      reads this
    {
      StripSlash(path)
    }

    /** What `init` remembered is what the container holds now. */
    ghost predicate Current()
      reads this, container
    {
      IsRoot() ||
      ((ex ==> Key() in container.objs) &&
       (init ==> (ex <==> Key() in container.objs) && (isd <==> IsDir(container.objs, Key()))) &&
       (isd ==> init && path == Key() + "/"))
    }

    /** The lazy HEAD request; a directory's path gets its trailing slash here. */
    method Init()
      requires Current()
      modifies this
      ensures Current() && init && Key() == old(Key()) && (IsRoot() <==> old(IsRoot()))
      ensures isd || path == old(path)
    {
      if init {
        return;
      }
      init := true;
      if path == "" || path == "/" {
        return;
      }
      var p2 := StripSlash(path);
      if p2 !in container.objs {
        return;
      }
      if container.objs[p2].dir {
        isd := true;
      }
      if isd && !(path != "" && path[|path| - 1] == '/') {
        path := path + "/";
      }
      ex := true;
    }

    method IsDirectory() returns (d: bool)
      requires Current()
      modifies this
      ensures Current() && Key() == old(Key()) && (IsRoot() <==> old(IsRoot()))
      ensures d <==> IsRoot() || (Key() in container.objs && container.objs[Key()].dir)
      ensures d <==> IsDir(container.objs, Key())
      ensures !IsRoot() ==> path == if d then Key() + "/" else old(path)
    {
      if path == "" || path == "/" {
        return true;
      }
      Init();
      d := isd;
    }

    method Exists() returns (e: bool)
      requires Current()
      modifies this
      ensures Current() && Key() == old(Key()) && (IsRoot() <==> old(IsRoot()))
      ensures e <==> IsRoot() || Key() in container.objs
    {
      if path == "" || path == "/" {
        return true;
      }
      Init();
      e := ex;
    }

    /** As a listing makes it: known to exist, nothing else known. */
    ghost predicate Entry(c: Container, p: string)
      reads this
    {
      container == c && path == p && ex && !init && !isd
    }

    method DoMkdir()
      modifies container
      ensures container.objs == old(container.objs)[Key() := Obj([], true)]
      ensures container.trace == old(container.trace) + [container.objs]
    {
      container.Put(StripSlash(path), MARKER);
    }

    /** One resource object for every entry of this directory; `shown` are their paths. */
    method DoList() returns (l: seq<OpenStackResourceObj>, ghost shown: seq<string>)
      ensures |l| == |shown|
      ensures forall i :: 0 <= i < |l| ==> fresh(l[i]) && l[i].Entry(container, shown[i])
      ensures forall i, j :: 0 <= i < j < |l| ==> l[i] != l[j]
      ensures AllEntries(container.objs, Key(), shown)
    {
      var names := container.List(StripSlash(path));
      l, shown := [], [];
      var ct := 0;
      while ct < |names|
        invariant 0 <= ct <= |names| && |l| == |shown|
        invariant forall i :: 0 <= i < |l| ==> fresh(l[i]) && l[i].Entry(container, shown[i])
        invariant forall i, j :: 0 <= i < j < |l| ==> l[i] != l[j]
        invariant forall i, j :: 0 <= i < j < |shown| ==> shown[i] != shown[j]
        invariant forall c :: c in shown ==> c in names[..ct]
        invariant forall c :: c in names[..ct] ==> (c in shown <==> Listed(container.objs, Key(), c))
      {
        var dn := names[ct];
        ReturnedListed(container.objs, Key(), dn);
        assert dn !in names[..ct];
        if dn != "/." && dn[|dn| - 1] != '/' {
          var ro := new OpenStackResourceObj(container, dn);
          ro.ex := true;
          l, shown := l + [ro], shown + [dn];
        }
        ct := ct + 1;
      }
      forall c ensures c in shown <==> Listed(container.objs, Key(), c) {
        ReturnedListed(container.objs, Key(), c);
      }
    }

    /** The loop over the entries of a directory that is about to be deleted. */
    method DeleteEntries()
      requires IsDir(container.objs, Key()) && Key() != ""
      modifies container
      ensures container.objs == old(container.objs) - (VisibleKeys(old(container.objs), Key()) - {Key()})
      ensures old(container.trace) <= container.trace
      ensures DeleteTrace(old(container.objs), Key(), container.trace, |old(container.trace)|)
      decreases |KeysUnder(container.objs, Key())|, 0
    {
      ghost var m, p, tr := container.objs, Key(), container.trace;
      ghost var done: set<string> := {};
      var l, shown := DoList();
      var i := 0;
      while i < |l|
        invariant 0 <= i <= |l|
        invariant container.objs == m - done && DeletedUpTo(m, p, shown, i, done)
        invariant forall j :: i <= j < |l| ==> fresh(l[j]) && l[j].Entry(container, shown[j])
        invariant tr <= container.trace && DeleteTrace(m, p, container.trace, |tr|)
      {
        assert shown[i] in shown;
        EntryKey(m, p, shown[i]);
        DeletedOneMore(m, p, shown, i, done);
        ghost var before := container.trace;
        l[i].DoDelete();
        DeleteTraceNest(m, p, shown, i, done, before, container.trace, |tr|);
        done := done + VisibleKeys(m, shown[i]);
        i := i + 1;
      }
      DeletedAll(m, p, shown, done);
    }

    /** DELETE of the whole tree, children first. */
    method DeleteCloudFile()
      requires Current() && !IsRoot()
      modifies this, container
      ensures Key() == old(Key()) && !IsRoot()
      ensures container.objs == DeleteOf(old(container.objs), old(Key()))
      ensures old(container.trace) <= container.trace
      ensures DeleteTrace(old(container.objs), old(Key()), container.trace, |old(container.trace)|)
      decreases |KeysUnder(container.objs, Key())|, 1
    {
      var d := IsDirectory();
      if d {
        DeleteEntries();
      }
      DeleteLast(old(container.objs), Key(), container.objs);
      container.Delete(StripSlash(path));
    }

    method DoDelete()
      requires Current() && !IsRoot()
      modifies this, container
      ensures Key() == old(Key()) && !IsRoot()
      ensures container.objs == DeleteOf(old(container.objs), old(Key()))
      ensures old(container.trace) <= container.trace
      ensures DeleteTrace(old(container.objs), old(Key()), container.trace, |old(container.trace)|)
      decreases |KeysUnder(container.objs, Key())|, 2
    {
      DeleteCloudFile();
    }

    /** The part of the path after the last slash. */
    function GetName(): string
      reads this
    {
      path[LastIndexOf(path, '/') + 1..]
    }

    /** Server-side copy of one object. */
    method XCopy(dest: OpenStackResourceObj)
      requires Key() in container.objs
      modifies container
      ensures container.objs == old(container.objs)[dest.Key() := old(container.objs)[Key()]]
      ensures container.trace == old(container.trace) + [container.objs]
    {
      container.PutCopy(StripSlash(path), StripSlash(dest.path));
    }

    /** One turn of the loop in doCopy: entry i of the directory src, this resource, goes below t. */
    method CopyEntry(prefix: nat, t: string, ghost src: string, ghost dst: string, ghost m: Store,
                     ghost shown: seq<string>, ghost i: nat, ghost n: nat)
      requires prefix == |src + "/"| && t == dst + "/" && src != "" && IsDir(m, src)
      requires Separate(m, src, dst) && AllEntries(m, src, shown) && i < |shown|
      requires Entry(container, shown[i]) && InTree(src, shown[i])
      requires container.objs == CopiedStore(m, src, dst, shown, i)
      requires n <= |container.trace| && CopyRun(m, src, dst, container.trace, n)
      modifies this, container
      ensures container.objs == CopiedStore(m, src, dst, shown, i + 1)
      ensures old(container.trace) <= container.trace && CopyRun(m, src, dst, container.trace, n)
      decreases |VisibleKeys(m, src)|, 0
    {
      EntryReady(m, src, dst, shown, i);
      var isd, nt := Target(prefix, t, src, dst, m, shown[i]);
      var dr := new OpenStackResourceObj(container, nt);
      if isd {
        CopyBelow(dr, src, dst, m, shown, i, n);
      } else {
        CopyLeaf(dr, src, dst, m, shown, i, n);
      }
    }

    /** Whether the entry c of src, this one, is a directory, and the path of its copy. */
    method Target(prefix: nat, t: string, ghost src: string, ghost dst: string, ghost m: Store, ghost c: string)
      returns (isd: bool, nt: string)
      requires prefix == |src + "/"| && t == dst + "/"
      requires Entry(container, c) && Listed(m, src, c) && InTree(src, c) && SameAt(m, container.objs, c)
      modifies this
      ensures Current() && Key() == c && !IsRoot()
      ensures (isd <==> IsDir(m, c)) && StripSlash(nt) == Rebase(src, dst, c)
    {
      EntryKey(m, src, c);
      isd := IsDirectory();
      if isd {
        DirTarget(m, src, dst, c, t, path, prefix);
        nt := t + path[prefix..];
      } else {
        FileTarget(m, src, dst, c, t);
        nt := t + GetName();
      }
    }

    /** Entry i of the directory src is a file, this one: a server-side copy to dr. */
    method CopyLeaf(dr: OpenStackResourceObj, ghost src: string, ghost dst: string, ghost m: Store,
                    ghost shown: seq<string>, ghost i: nat, ghost n: nat)
      requires src != "" && IsDir(m, src) && Separate(m, src, dst) && AllEntries(m, src, shown) && i < |shown|
      requires shown[i] in m && !IsDir(m, shown[i]) && InTree(src, shown[i])
      requires Key() == shown[i] && dr.Key() == Rebase(src, dst, shown[i])
      requires SameAt(m, container.objs, shown[i])
      requires container.objs == CopiedStore(m, src, dst, shown, i)
      requires n <= |container.trace| && CopyRun(m, src, dst, container.trace, n)
      modifies container
      ensures container.objs == CopiedStore(m, src, dst, shown, i + 1)
      ensures old(container.trace) <= container.trace && CopyRun(m, src, dst, container.trace, n)
    {
      CopyFileEntry(m, src, dst, shown, i);
      CopyRunFile(m, src, dst, shown, i + 1, container.trace, n);
      XCopy(dr);
    }

    /** Entry i of the directory src is a directory, this one: its marker is PUT at dr, then its tree. */
    method CopyBelow(dr: OpenStackResourceObj, ghost src: string, ghost dst: string, ghost m: Store,
                     ghost shown: seq<string>, ghost i: nat, ghost n: nat)
      requires src != "" && IsDir(m, src) && Separate(m, src, dst) && AllEntries(m, src, shown) && i < |shown|
      requires shown[i] in shown && shown[i] != "" && IsDir(m, shown[i]) && shown[i] in m && InTree(src, shown[i])
      requires Current() && !IsRoot() && Key() == shown[i]
      requires dr != this && dr.container == container && dr.Key() == Rebase(src, dst, shown[i])
      requires container.objs == CopiedStore(m, src, dst, shown, i)
      requires n <= |container.trace| && CopyRun(m, src, dst, container.trace, n)
      modifies this, container
      ensures container.objs == CopiedStore(m, src, dst, shown, i + 1)
      ensures old(container.trace) <= container.trace && CopyRun(m, src, dst, container.trace, n)
      decreases |VisibleKeys(m, src)|, 0, 0
    {
      ghost var before := container.trace;
      EntryIntact(m, src, dst, shown, i);
      EntryPaths(m, src, dst, shown[i]);
      MarkerKept(m, src, dst, shown, i);
      assert SameAt(m, container.objs, shown[i]);
      dr.DoMkdir();
      CopyDirEntry(m, src, dst, shown, i);
      DoCopy(dr);
      CopyRunDir(m, src, dst, shown, i, before, container.trace, n);
    }

    /** The loop of doCopy over the entries of this directory, after the PUT of dst itself. */
    method CopyEntries(t: string, ghost dst: string, ghost m: Store)
      requires path == Key() + "/" && Key() != "" && Key() in m && m[Key()].dir
      requires t == dst + "/" && Separate(m, Key(), dst)
      requires container.objs == m[dst := m[Key()]]
      requires |container.trace| > 0 && container.trace[|container.trace| - 1] == container.objs
      modifies container
      ensures container.objs == CopyOf(m, Key(), dst)
      ensures old(container.trace) <= container.trace
      ensures CopyRun(m, Key(), dst, container.trace, |old(container.trace)| - 1)
      decreases |VisibleKeys(m, Key())|, 1
    {
      ghost var src, n := Key(), |container.trace| - 1;
      var l, shown := DoList();
      CopyStart(m, src, dst, shown, container.objs, container.trace);
      var i := 0;
      while i < |l|
        invariant 0 <= i <= |l|
        invariant container.objs == CopiedStore(m, src, dst, shown, i)
        invariant forall j :: i <= j < |l| ==> fresh(l[j]) && l[j].Entry(container, shown[j])
        invariant old(container.trace) <= container.trace && CopyRun(m, src, dst, container.trace, n)
      {
        assert shown[i] in shown;
        l[i].CopyEntry(|path|, t, src, dst, m, shown, i, n);
        i := i + 1;
      }
      CopyEnd(m, src, dst, shown, container.objs);
    }

    /** The server-side copy of this resource itself, and whether its entries follow. */
    method CopySelf(dest: OpenStackResourceObj) returns (d: bool)
      requires Current() && !IsRoot() && container == dest.container
      requires Copyable(container.objs, Key(), dest.Key())
      modifies this, container
      ensures Current() && Key() == old(Key()) && !IsRoot()
      ensures d <==> IsDir(old(container.objs), Key())
      ensures d ==> path == Key() + "/" && Key() in old(container.objs)
      ensures container.objs == SelfPut(old(container.objs), Key(), dest.Key())
      ensures container.trace == if Key() in old(container.objs)
                                 then old(container.trace) + [container.objs] else old(container.trace)
    {
      d := IsDirectory();
      container.PutCopy(StripSlash(path), StripSlash(dest.path));
      d := IsDirectory();
    }

    /** Copies the tree at this resource to dest. */
    method DoCopy(dest: OpenStackResourceObj)
      requires Current() && !IsRoot() && container == dest.container
      requires Copyable(container.objs, Key(), dest.Key())
      modifies this, container
      ensures Current() && Key() == old(Key()) && !IsRoot()
      ensures container.objs == CopyOf(old(container.objs), Key(), dest.Key())
      ensures old(container.trace) <= container.trace
      ensures CopyRun(old(container.objs), Key(), dest.Key(), container.trace, |old(container.trace)|)
      ensures Key() !in old(container.objs) ==> container.trace == old(container.trace)
      decreases |VisibleKeys(container.objs, Key())|, 2
    {
      ghost var m := container.objs;
      ghost var dst := dest.Key();
      var t := dest.path;
      if !(t != "" && t[|t| - 1] == '/') {
        t := t + "/";
      }
      var d := CopySelf(dest);
      if !d {
        CopySingle(m, Key(), dst);
        return;
      }
      SourceKept(m, Key(), dst);
      CopyEntries(t, dst, m);
    }

    /** Copy, then delete the source. */
    method DoMove(dest: OpenStackResourceObj)
      requires Current() && !IsRoot() && container == dest.container
      requires Copyable(container.objs, Key(), dest.Key())
      modifies this, container
      ensures Key() == old(Key())
      ensures container.objs == MoveOf(old(container.objs), Key(), dest.Key())
      ensures old(container.trace) <= container.trace
      ensures MoveRun(old(container.objs), Key(), dest.Key(), container.trace, |old(container.trace)|)
    {
      ghost var m, n, dst := container.objs, |container.trace|, dest.Key();
      DoCopy(dest);
      ghost var mid := container.trace;
      DoDelete();
      MoveRunJoin(m, Key(), dst, mid, container.trace, n);
    }
  }

  /** Entries of a listing are keys, free of a trailing slash. */
  lemma EntryKey(m: Store, p: string, c: string)
    requires Listed(m, p, c)
    ensures StripSlash(c) == c && c != "" && c != "/"
  {
  }
}
