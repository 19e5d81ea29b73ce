/** Public paths and the access decision of `lookup` (ResourceStore.java). */
module Lookup {
  import opened Privileges
  import opened Basics
  import opened Paths

  class BooleanHolder {
    var value: bool

    constructor ()
      ensures !value
    {
      value := false;
    }
  }

  /** The region check for a public path, which has no leading slash. */
  predicate Covers(root: string, path: string) {
    root + "/" <= path || root + "/" <= path + "/"
  }

  /** What `doPathMatch` finds for exactly this path: the listing flag, if the path is public. */
  ghost function PublicMatch(db: Db, path: string, u: Option<string>): Option<bool> {
    if path !in db.publicRows then None
    else
      var su := db.publicRows[path].owner;
      var nvp := UserPriv(db, su);
      if nvp.None? || !Covers(nvp.value.path, path) then None
      else if u.Some? && (su == u.value || (u.value, su) in db.oversees) then Some(db.dirListing)
      else Some(db.publicRows[path].listing)
  }

  /** The privileges of the owner of a public path can be computed. */
  ghost predicate RowEnds(db: Db, path: string) {
    path in db.publicRows ==> Ends(db, db.publicRows[path].owner)
  }

  method DoPathMatch(db: Db, path: string, l: BooleanHolder, u: Option<string>) returns (found: bool)
    requires RowEnds(db, path)
    modifies l
    // a row, whose owner has the path
    ensures found <==> path in db.publicRows &&
                       var nvp := UserPriv(db, db.publicRows[path].owner);
                       nvp.Some? && (nvp.value.path + "/" <= path || nvp.value.path + "/" <= path + "/")
    // listed by the flag of the row, or of the site for its owner and who oversees the owner
    ensures found ==>
              var su := db.publicRows[path].owner;
              l.value == if u.None? || (su != u.value && (u.value, su) !in db.oversees)
                         then db.publicRows[path].listing else db.dirListing
    ensures found <==> PublicMatch(db, path, u).Some?
    ensures l.value == if found then PublicMatch(db, path, u).value else old(l.value)
  {
    if path !in db.publicRows {
      return false;
    }
    var row := db.publicRows[path];
    var su := row.owner;
    var nvp := GetUserPriv(db, su);
    if nvp.None? {
      return false;
    }
    if !(nvp.value.path + "/" <= path) && !(nvp.value.path + "/" <= path + "/") {
      return false;
    }
    if u.None? || (su != u.value && (u.value, su) !in db.oversees) {
      l.value := row.listing;
    } else {
      l.value := db.dirListing;
    }
    return true;
  }

  /** path itself, or what is left of a slash in it. */
  predicate IsCut(path: string, c: string) {
    c == path || (c != "" && Under(c, path))
  }

  lemma CutOfCut(path: string, c: string)
    requires 0 < LastIndexOf(path, '/')
    ensures IsCut(path, c) <==> c == path || IsCut(path[..LastIndexOf(path, '/')], c)
  {
    var i := LastIndexOf(path, '/');
    if c != "" && Under(c, path) {
      assert |c| <= i;
      assert path[..i][..|c|] == path[..|c|];
    }
    if c != "" && Under(c, path[..i]) {
      assert path[..i][..|c|] == path[..|c|];
    }
  }

  lemma NoCut(path: string, c: string)
    requires LastIndexOf(path, '/') <= 0
    ensures IsCut(path, c) ==> c == path
  {
  }

  /** The privileges of every owner that pathMatch asks for can be computed: it asks down to the longest match. */
  ghost predicate CutsEnd(db: Db, path: string, u: Option<string>) {
    forall c :: IsCut(path, c) && NoneLonger(db, path, u, c) ==> RowEnds(db, c)
  }

  ghost predicate NoneLonger(db: Db, path: string, u: Option<string>, c: string) {
    forall d :: IsCut(path, d) && |d| > |c| ==> PublicMatch(db, d, u).None?
  }

  /** c is the longest public one among the cuts of path. */
  ghost predicate LongestMatch(db: Db, path: string, u: Option<string>, c: string) {
    IsCut(path, c) && PublicMatch(db, c, u).Some? && NoneLonger(db, path, u, c)
  }

  lemma CutText(path: string, c: string)
    ensures IsCut(path, c) <==> c == path || (c != "" && c + "/" <= path)
  {
    UnderText(c, path);
  }

  /** One slash in front is no part of a public path, and neither is one at the end. */
  lemma StrippedText(c: string)
    requires c == "" || (c[0] != '/' && c[|c| - 1] != '/')
    ensures Stripped(c) == c == Stripped("/" + c)
    ensures c != "" ==> Stripped(c + "/") == c == Stripped("/" + c + "/")
  {
    StripsOne(c);
    assert ("/" + c)[1..] == c && ("/" + c + "/")[1..] == c + "/";
  }

  method PathMatch(db: Db, requested: string, l: BooleanHolder, u: Option<string>) returns (found: bool)
    requires CutsEnd(db, requested, u)
    modifies l
    ensures found <==> exists c :: IsCut(requested, c) && PublicMatch(db, c, u).Some?
    ensures found ==> exists c :: LongestMatch(db, requested, u, c) && PublicMatch(db, c, u).value == l.value
    ensures !found ==> l.value == old(l.value)
  {
    var path := requested;
    found := DoPathMatch(db, path, l, u);
    if found {
      assert LongestMatch(db, requested, u, path);
      return;
    }
    var i := LastIndexOf(path, '/');
    while i > 0
      invariant i == LastIndexOf(path, '/') && IsCut(requested, path)
      invariant l.value == old(l.value)
      invariant forall d :: IsCut(requested, d) ==> IsCut(path, d) || |d| > |path|
      invariant forall d :: IsCut(requested, d) && |d| >= |path| ==> PublicMatch(db, d, u).None?
      decreases |path|
    {
      forall d ensures IsCut(path, d) <==> d == path || IsCut(path[..i], d) {
        CutOfCut(path, d);
      }
      UnderTransitive(path[..i], path, requested);
      path := path[..i];
      found := DoPathMatch(db, path, l, u);
      if found {
        assert LongestMatch(db, requested, u, path);
        return;
      }
      i := LastIndexOf(path, '/');
    }
    forall d | IsCut(requested, d) ensures PublicMatch(db, d, u).None? {
      NoCut(path, d);
    }
    if i < 0 {
      found := DoPathMatch(db, path, l, u);
      return;
    }
    return false;
  }

  /** `isPublicPath`; a failure in the database counts as not public and is not modelled. */
  method IsPublicPath(db: Db, requested: string, l: BooleanHolder, u: Option<string>) returns (found: bool)
    requires !OwnPage(db, requested) ==> CutsEnd(db, Stripped(requested), u)
    modifies l
    ensures "/" + db.app + "/" <= requested || requested == "/favicon.ico" ==> found && l.value == old(l.value)
    ensures found <==> IsPublic(db, requested, u)
    ensures !found || OwnPage(db, requested) ==> l.value == old(l.value)
    ensures found && !OwnPage(db, requested) ==>
              exists c :: LongestMatch(db, Stripped(requested), u, c) && PublicMatch(db, c, u).value == l.value
  {
    if "/" + db.app + "/" <= requested || requested == "/favicon.ico" {
      return true;
    }
    var path := requested;
    if "/" <= path {
      path := path[1..];
    }
    path := StripSlash(path);
    found := PathMatch(db, path, l, u);
  }

  predicate OwnPage(db: Db, path: string) {
    "/" + db.app + "/" <= path || path == "/favicon.ico"
  }

  function Stripped(path: string): string {
    StripSlash(if "/" <= path then path[1..] else path)
  }

  ghost predicate IsPublic(db: Db, path: string, u: Option<string>) {
    OwnPage(db, path) || exists c :: IsCut(Stripped(path), c) && PublicMatch(db, c, u).Some?
  }

  /**
   * The answer of `lookup`: no resource, or one, with the directory that is created on the way and
   * the listing flag that is set on it.
   */
  datatype Access = LoginRequired | Forbidden | Granted(mkdir: Option<string>, listing: Option<bool>)

  predicate IsAdmin(db: Db, u: Option<string>) {
    u.Some? && u.value in db.admins
  }

  /** Who may do what: the rule that `lookup` implements. */
  ghost predicate MayAccess(db: Db, path: string, u: Option<string>, action: int) {
    IsAdmin(db, u) ||
    (action == READ && IsPublic(db, path, u)) ||
    (u.Some? &&
     var nvp := UserPriv(db, u.value);
     nvp.Some? && Admits(nvp.value.path, path) &&
     (action == WRITE ==> nvp.value.privilege == WRITE && !OwnPage(db, path)))
  }

  /** u is the user that the login of this request yields, if any. */
  method Lookup(db: Db, path: string, u: Option<string>, action: int) returns (a: Access)
    requires !IsAdmin(db, u) && action == READ && !OwnPage(db, path) && !(RootLocked(db, path) && u.None?) ==>
               CutsEnd(db, Stripped(path), u)
    requires !IsAdmin(db, u) && u.Some? && !(action == READ && IsPublic(db, path, u)) ==> Ends(db, u.value)
    ensures a.Granted? <==> MayAccess(db, path, u, action) && !(RootLocked(db, path) && u.None?)
    ensures !a.Granted? ==> (a.LoginRequired? <==> u.None?)
    ensures db.protectedRoot && (path == "/" || path == "") && u.None? ==> a.LoginRequired?
    // what a grant shows of the user, unless it is an administrator
    ensures a.Granted? && !(u.Some? && u.value in db.admins) && action == WRITE ==>
              u.Some? && UserPriv(db, u.value).Some? && UserPriv(db, u.value).value.privilege == WRITE &&
              !("/" + db.app + "/" <= path) && path != "/favicon.ico"
    ensures a.Granted? && !(u.Some? && u.value in db.admins) && !(action == READ && IsPublic(db, path, u)) ==>
              u.Some? && UserPriv(db, u.value).Some? &&
              var root := "/" + UserPriv(db, u.value).value.path + "/"; root <= path || root <= path + "/"
    // and what suffices for one
    ensures u.Some? && u.value in db.admins ==> a.Granted?
    ensures (action == READ && IsPublic(db, path, u) &&
             !(db.protectedRoot && (path == "/" || path == "") && u.None?)) ==>
              a.Granted?
    ensures (u.Some? && UserPriv(db, u.value).Some? &&
             (var root := "/" + UserPriv(db, u.value).value.path + "/"; root <= path || root <= path + "/") &&
             (action == WRITE ==> UserPriv(db, u.value).value.privilege == WRITE &&
                                  !("/" + db.app + "/" <= path) && path != "/favicon.ico")) ==>
              a.Granted?
    ensures a.Granted? ==> (a.mkdir.Some? <==> !IsAdmin(db, u) && !(action == READ && IsPublic(db, path, u)))
    ensures a.Granted? && a.mkdir.Some? ==>
              u.Some? && UserPriv(db, u.value).Some? && a.mkdir.value == "/" + UserPriv(db, u.value).value.path + "/"
    ensures a.Granted? ==> (a.listing.Some? <==> !IsAdmin(db, u) && action == READ && IsPublic(db, path, u))
    ensures a.Granted? && a.listing.Some? ==>
              if OwnPage(db, path) then !a.listing.value
              else exists c :: LongestMatch(db, Stripped(path), u, c) && PublicMatch(db, c, u).value == a.listing.value
  {
    if path == "/" || path == "" {
      if db.protectedRoot {
        if u.None? {
          return LoginRequired;
        }
      }
    }
    if u.Some? && u.value in db.admins {
      return Granted(None, None);
    }
    if action == READ {
      var l := new BooleanHolder();
      var isPublic := IsPublicPath(db, path, l, u);
      if isPublic {
        return Granted(None, Some(l.value));
      }
    }
    if u.None? {
      return LoginRequired;
    }
    var nvp := GetUserPriv(db, u.value);
    if nvp.None? {
      return Forbidden;
    }
    if action == WRITE && (nvp.value.privilege != WRITE || ("/" + db.app + "/" <= path || path == "/favicon.ico")) {
      return Forbidden;
    }
    var root := nvp.value.path;
    if !("/" + root + "/" <= path) && !("/" + root + "/" <= path + "/") {
      return Forbidden;
    }
    return Granted(Some("/" + root + "/"), None);
  }

  predicate RootLocked(db: Db, path: string) {
    db.protectedRoot && (path == "/" || path == "")
  }

  /** Whether a path is public does not depend on who asks. */
  lemma PublicForAll(db: Db, path: string, u: Option<string>, v: Option<string>)
    requires IsPublic(db, path, u)
    ensures IsPublic(db, path, v)
  {
    if !OwnPage(db, path) {
      var c :| IsCut(Stripped(path), c) && PublicMatch(db, c, u).Some?;
      assert IsCut(Stripped(path), c) && PublicMatch(db, c, v).Some?;
    }
  }

  /**
   * Delegation through `lookup`: whatever a user may do, each owner on its way up that has a clean
   * stored path, and for writing the right to write, may do too.
   */
  lemma OwnersMayAccess(db: Db, path: string, u: string, walk: seq<string>, i: nat, action: int)
    requires u !in db.admins && IsWalk(db, u, walk) && i < |walk|
    requires MayAccess(db, path, Some(u), action)
    requires var o := walk[i];
      o in db.rows && Clean(db.rows[o].path) && (action == WRITE ==> db.rows[o].privilege == WRITE)
    ensures MayAccess(db, path, Some(walk[i]), action)
  {
    var o := walk[i];
    if action == READ && IsPublic(db, path, Some(u)) {
      PublicForAll(db, path, Some(u), Some(o));
    } else {
      UserPrivOf(db, u, walk);
      WalkIsChain(db, u, walk);
      EffectiveOf(db, u, walk);
      ChainOfOwner(db, u, walk, i);
      EffectiveOf(db, o, walk[i + 1..]);
      RegionContained(db, u, walk, i, path);
    }
  }
}
