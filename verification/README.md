# Caimito: a verified model

Caimito is a WebDAV front end. It shows a flat OpenStack container as a directory tree, decides who
may see which path, keeps a table of WebDAV locks, caches cloud objects on disk and serves byte
ranges of them. This project models these five parts in Dafny, in the form the Java code has
(classes whose fields change, loops, in-place removal), and proves what they keep.

| part | files |
|---|---|
| tree operations on a flat store, COPY and MOVE, PROPFIND | `Basics`, `Paths`, `ObjectTree`, `TreeDelete`, `TreeDetached`, `TreeCopy`, `TreeMove`, `OpenStack`, `CopyCalls`, `WebdavCopyMove`, `Propfind` |
| path rewriting, delegated privileges, public paths | `Rewriting`, `Privileges`, `Lookup` |
| lock table | `LockTable` (values, runs), `LockGrants` (what a lock is good for), `LockServlet` (the Java objects) |
| read cache | `CloudCache` |
| byte ranges, conditional requests | `HttpText`, `Validators`, `ByteRanges`, `ServeRange` |

`dafny verify dfyconfig.toml` checks everything.

## How the parts are modelled

**Store.** A `Container` holds a map from path to object. Each PUT and DELETE is one step, and a ghost
`trace` keeps the store after every step, so that statements about intermediate states are statements
about the trace. A directory is an object of type `application/directory`. A listing goes one level
down from a marker, so what doCopy and deleteCloudFile reach is `Visible`: the objects all of whose
ancestors below the starting point have a marker. Nothing assumes that the store is well formed; where
a result needs that (`Closed`: every object has a marker for each ancestor) the lemma says so.
`TreeCopy.Tidy` is the case in which copying keeps a store closed. The destination of a copy may
lie below or above its source as long as what is written is not part of what is read
(`TreeDetached.Separate`). `CopyCalls` models the calls of doCopy on any two paths and shows exactly
when they end.

**Locks.** A request is one atomic step at a time `now`. `LockTable` describes the steps on values and
proves what holds in every run; each method of `LockServlet` is proved to take exactly that step. The
table remembers the locks that `isLocked` removed, so that statements can speak about them. Two puts in
doLock are commented out in the code, so `resourceLocks` and `lockNullResources` stay empty; that is
part of the class invariant. The wired doUnlock is empty; doUnlock1, which nothing calls, is modelled as
the release step.

**Cache.** Readers and writers take the steps of doGetInputStream in any interleaving, with no mutual
exclusion. Versions of the object are named by their cloud stamps, which grow with every write.

## Assumptions

- `StringUtil.replaceSubstring` (not in the repository) replaces all leftmost non-overlapping occurrences.
- A container listing returns the direct children and, for deeper objects, names that end in `/`, in an
  order of the server's choice. PUT, DELETE and the server-side copy are atomic; a copy from a missing
  object answers 404 and stores nothing.
- One store for all users; URL encoding does not change which object a path names.
- Cloud stamps strictly increase with every write, and a file just downloaded never has the stamp of a
  cloud object by accident.
- `retrieveCloudFile` puts one version into the cache file in one step, no older than what the reader
  and every reader that counts on the file saw; the version that is current at that moment always
  qualifies (`CloudCache.CurrentNoOlder`). A reader that stamps the file without having looked before
  the download does so before the object is written again. Both conditions are exact, in terms of the
  streams that readers get (`CloudCache.FetchKeepsIff`, `CloudCache.StampKeepsIff`);
  `CloudCache.SlowDownload` and `CloudCache.LateInit` are runs in which they fail.
- Users, owners, administrators and privilege rows are given maps. The query for an owner without a
  privilege row is taken to return nothing, so that reading its path fails and getUserPriv answers
  nothing.
- The length of a content is a 64-bit number, as its Java type is.
- A stream may read short, skip short or fail. The results on exact output are for streams that do not.

## Where the code falls short of what one would expect

- COPY or MOVE onto a path inside the source is not refused. If the destination's parent is a directory
  that is reached from the source, the calls of doCopy nest without end, at any depth
  (`CopyCalls.NeverEnds`); every other copy ends (`CopyCalls.CopyEndsIff`).
- A destination at or above the source is not refused either, for example the same path with a slash
  behind it. In a closed store, clearing it deletes the source, and nothing is copied
  (`TreeMove.SourceCleared`).
- The servlet does not check that the parent of a destination exists. `TreeMove.OverwriteClosedIff` says
  exactly when the store stays closed. doCopy by itself, without the overwrite, can put a file on a path
  that has objects below it (`TreeCopy.CopyClosedIff`).
- isLocked removes expired locks from the list it is enumerating and steps over their successors.
  `LockTable.WalkIff` gives the exact condition under which a lock is seen, and
  `LockGrants.SteppedOver` is a run in which a live exclusive lock is not.
- A refresh can revive a lock that has expired. `LockTable.RefreshKeepsIff` says exactly when that keeps
  exclusive locks in turn, and `LockTable.LateRefresh` is a run in which it is not.
- doLock does not look at locks above the requested path. `LockGrants.GrantCompatibleIff` says exactly
  when a grant leaves the live locks compatible, and `LockGrants.AncestorsNotChecked` is a case in
  which it does not.
- An expired entry answers for its own path until isLocked removes it (`LockTable.StaleEntry`), and a
  lock that joins it is granted and not live. `LockTable.GrantLiveIff` says exactly when a grant is live.
- The loop of getUserPriv does not end if the way up through owners with rows comes to one of them twice,
  for example for two users who own each other (`Privileges.EndlessCycle`); it ends in every other case
  (`Privileges.EndsIff`, `Privileges.LoopEndsIff`), also on a cycle with an owner that has no row
  (`Privileges.CycleEnds`).
- A stored owner path with a slash at its end lets its users leave the region of that owner
  (`Privileges.SlashEscapes`); `Privileges.RegionIff` has the exact condition.
- A comment in checkIfUnmodifiedSince says that the entity was not modified; the code answers 412 when it
  was. The model follows the code.
- copyRange reports no error when a read fills less than the buffer before the last byte of the range,
  and sends less than announced; `ServeRange.CopyRange` says exactly when.
- A suffix range longer than the content, or one bad range, refuses the whole Range header, unlike
  section 2.1 of RFC 7233.

## Model

| member | source | states |
|---|---|---|
| OpenStack.ReturnedListed | source/ngasi/caimito/resource/OpenStackResourceObj.java:717-882 | Of the names a container listing returns, dropping `.` and those ending in `/` leaves exactly the objects whose parent is the listed directory. |
| ObjectTree.VisibleIff | source/ngasi/caimito/resource/OpenStackResourceObj.java:717-882 | What is reached from a directory by listing: exactly the objects below it such that every path on the way down is a named object, and every one above the last a marked directory. |
| OpenStack.OpenStackResourceObj.DoList | source/ngasi/caimito/resource/OpenStackResourceObj.java:717-882 | One fresh resource per entry of the directory, each entry once, none missing; known to exist and nothing else remembered. |
| OpenStack.OpenStackResourceObj.Init | source/ngasi/caimito/resource/OpenStackResourceObj.java:357-432 | What is remembered afterwards is what the container holds; a directory's path gets its slash, the object it names stays the same. |
| OpenStack.OpenStackResourceObj.IsDirectory | source/ngasi/caimito/resource/OpenStackResourceObj.java:472-477 | True exactly for the root and for objects with a directory marker, also when the answer was remembered. |
| OpenStack.OpenStackResourceObj.Exists | source/ngasi/caimito/resource/OpenStackResourceObj.java:262-270 | True exactly if the path is the root or names an object. |
| OpenStack.OpenStackResourceObj.DoMkdir | source/ngasi/caimito/resource/OpenStackResourceObj.java:440-463 | One PUT: the marker at this path, every other object unchanged. |
| OpenStack.OpenStackResourceObj.DeleteCloudFile | source/ngasi/caimito/resource/OpenStackResourceObj.java:271-355 | Terminates; removes exactly the visible tree at the path; every store on the way still has, with an object, everything visible above it (children go first). |
| OpenStack.OpenStackResourceObj.DeleteEntries | source/ngasi/caimito/resource/OpenStackResourceObj.java:271-355 | The recursive loop alone removes the tree below the directory and leaves the directory. |
| OpenStack.OpenStackResourceObj.XCopy | source/ngasi/caimito/resource/OpenStackResourceObj.java:216-246 | One PUT: the object at the destination is the object at the source. |
| OpenStack.OpenStackResourceObj.CopySelf | source/ngasi/caimito/resource/OpenStackResourceObj.java:154-179 | The PUT that starts a copy, and that a source that is missing stores nothing. |
| OpenStack.OpenStackResourceObj.CopyEntry | source/ngasi/caimito/resource/OpenStackResourceObj.java:184-211 | One turn of the copy loop, for a directory or a file: from the trees at i entries copied to i + 1. |
| OpenStack.OpenStackResourceObj.Target | source/ngasi/caimito/resource/OpenStackResourceObj.java:187-202 | The path that the loop computes for an entry, by offset for a directory and by name for a file, is the entry's path moved from source to destination. |
| OpenStack.OpenStackResourceObj.CopyEntries | source/ngasi/caimito/resource/OpenStackResourceObj.java:180-211 | After the loop the store is the exact copy; every store after a PUT is a step of the copy. |
| OpenStack.OpenStackResourceObj.DoCopy | source/ngasi/caimito/resource/OpenStackResourceObj.java:137-214 | For a copy that does not write what it reads, or a missing source: terminates; dest/x holds the object src/x for every x of the source tree, all else is unchanged; after every PUT each place holds what it held, the copy, or the marker PUT ahead of it, and if the copy started tidy every object has its markers. |
| OpenStack.OpenStackResourceObj.DoMove | source/ngasi/caimito/resource/OpenStackResourceObj.java:249-260 | For the same paths: after every PUT and DELETE nothing of the source is lost and nothing but the source tree and its copy changes; the end is the copy with the source tree deleted. |
| TreeDelete.DeleteStepClosed | source/ngasi/caimito/resource/OpenStackResourceObj.java:271-355 | Every store on the way of a deletion is closed if the first was. |
| TreeDelete.DeletedAll | source/ngasi/caimito/resource/OpenStackResourceObj.java:271-355 | The trees at the entries of a directory are together everything in its tree but itself. |
| TreeCopy.CopyDirEntry | source/ngasi/caimito/resource/OpenStackResourceObj.java:189-197 | Copying a directory entry recursively, on a store that already holds its marker, equals copying its tree from the original store. |
| TreeCopy.CopyStepNest | source/ngasi/caimito/resource/OpenStackResourceObj.java:189-197 | Every step of a nested copy is a step of the whole copy. |
| TreeCopy.CopyClosedIff | source/ngasi/caimito/resource/OpenStackResourceObj.java:137-214 | In a closed store with a parent for the destination: closed again after a copy if and only if no source file landed on a path with objects below it. |
| TreeDetached.SeparateVisible | source/ngasi/caimito/resource/OpenStackResourceObj.java:137-214 | Nothing that a separate copy writes changes what is read at the source. |
| TreeDetached.SeparateAboveIff | source/ngasi/caimito/resource/OpenStackResourceObj.java:137-214 | For a destination at or above an existing source a copy is separate if and only if no object of the tree is copied onto another one of it, which one path decides. |
| TreeDetached.NestedSeparate | source/ngasi/caimito/resource/OpenStackResourceObj.java:184-211 | The call nested at an entry is separate again, on a tree with fewer objects. |
| CopyCalls.NeverEnds | source/ngasi/caimito/resource/OpenStackResourceObj.java:137-214 | If the destination lies in a directory reached from the source, the nested calls exceed every depth, in every order of the listings. |
| CopyCalls.CopyEndsIff | source/ngasi/caimito/resource/OpenStackResourceObj.java:137-214 | For any two paths, any store and any order of the listings: doCopy ends if and only if its destination does not become part of the tree it reads. |
| CopyCalls.CallExact | source/ngasi/caimito/resource/OpenStackResourceObj.java:137-214 | Whenever the nested calls of a separate copy end they leave exactly the copy, so the order of the listings does not matter. |
| CopyCalls.RequestEndsIff | source/ngasi/caimito/CaimitoAsyncWebdavServlet.java:2071-2152 | In a closed store an overwriting request ends if and only if it is one of those whose outcome `WebdavCopyMove` states. |
| CopyCalls.CopyIntoItself | source/ngasi/caimito/resource/OpenStackResourceObj.java:137-214 | For example, a directory copied to any path directly below itself never ends. |
| TreeMove.MoveRunJoin | source/ngasi/caimito/resource/OpenStackResourceObj.java:249-260 | A copy run followed by a delete run loses nothing at any step, changes nothing but the source tree and its copy, and keeps a tidy store closed. |
| TreeMove.MoveFinal | source/ngasi/caimito/resource/OpenStackResourceObj.java:249-260 | After a move each object of the source is at its new path and only there; everything else is as before. |
| TreeMove.OverwriteCopyExact | source/ngasi/caimito/CaimitoAsyncWebdavServlet.java:2071-2152 | With the destination deleted first, its tree ends equal to the source tree, without leftovers, and nothing outside it changes (sections 9.8 and 10.6 of RFC 4918). |
| TreeMove.OverwriteMoveExact | source/ngasi/caimito/CaimitoAsyncWebdavServlet.java:1187-1272 | The same for MOVE, and nothing is left at the source (section 9.9 of RFC 4918). |
| TreeMove.OverwriteClosedIff | source/ngasi/caimito/CaimitoAsyncWebdavServlet.java:2071-2152 | An overwriting COPY keeps the store closed if and only if the destination's parent is a directory or there is no source. |
| TreeMove.SourceCleared | source/ngasi/caimito/CaimitoAsyncWebdavServlet.java:2086-2111 | With a destination at or above the source, clearing deletes the source and the copy or move after it changes nothing. |
| WebdavCopyMove.WebdavServlet.Prepare | source/ngasi/caimito/CaimitoAsyncWebdavServlet.java:2060-2118 | Exactly which requests are answered 400, 403 and 412, from the Destination and Overwrite headers, with store and trace untouched; every other clears the destination, with 204 if it existed, else 201. |
| WebdavCopyMove.WebdavServlet.CopyResource | source/ngasi/caimito/CaimitoAsyncWebdavServlet.java:2060-2152 | COPY: 400 exactly without a destination, 403 exactly onto itself, 412 exactly if the destination exists and Overwrite is there and neither `T` nor `t`, all three with store and trace untouched. Every other request on paths that are not the root whose copy does not write what it reads clears the destination: final store and status; for a destination that is detached from the source, after every PUT and DELETE of the request, the clearing included, nothing of the source is lost, nothing outside the two trees differs, and a closed store whose destination has a parent is closed. |
| WebdavCopyMove.WebdavServlet.MoveResource | source/ngasi/caimito/CaimitoAsyncWebdavServlet.java:1176-1272 | MOVE likewise: the same three refusals for the same headers, and else final store, status, and the same guarantee for every store on the way. |
| Propfind.DoPropfind | source/ngasi/caimito/CaimitoWebdavServlet.java:571-815 | Terminates; on any store, for any path and depth it writes exactly the visible nodes at most that many levels down, each once, level by level, the requested path first; 404 if there is no resource. |
| Propfind.WalkTurn | source/ngasi/caimito/CaimitoWebdavServlet.java:738-815 | One turn of the two-stack loop, with the change of level, keeps: all higher levels are out, of this level all but the stack, and the other stack holds the children of what is out. |
| Propfind.LevelAbove | source/ngasi/caimito/CaimitoWebdavServlet.java:738-815 | A tree has no gaps: below an empty level there is nothing, so stopping at an empty stack loses nothing. |
| Rewriting.Normalize | source/ngasi/caimito/CaimitoUtil.java:37-49 | Terminates on every string and returns a string without `..`, `//`, `\` and `:` that one left-to-right scan with a stack also yields. |
| Rewriting.RoundShrinks | source/ngasi/caimito/CaimitoUtil.java:37-49 | Every round of the loop shortens the string, or keeps its length and removes backslashes. |
| Rewriting.ExitIsNormal | source/ngasi/caimito/CaimitoUtil.java:40-42 | The exit test holds of the normal strings and no others. |
| Rewriting.OccursIff | source/ngasi/caimito/CaimitoUtil.java:40-42 | The search finds a text exactly if the string is something, the text, something; the lock tokens of `If` headers are searched the same way. |
| Rewriting.UniqueNormalForm | source/ngasi/caimito/CaimitoUtil.java:37-49 | Applying the rules in any order at any places can only end in the string normalize returns. |
| Rewriting.ScanPrefix | source/ngasi/caimito/CaimitoUtil.java:37-49 | normalize(a + b) = normalize(normalize(a) + b), and normalize is idempotent. |
| Privileges.GetUserPriv | source/ngasi/caimito/resource/ResourceStore.java:196-237 | For every user for whom the loop ends: the normalised path below the paths of all owners up to the first administrator, or nothing if the user or one of them has no row. |
| Privileges.UserPrivStep | source/ngasi/caimito/resource/ResourceStore.java:196-237 | From one user to the next: nothing without a row, the stored row below no owner or an administrator, and else the normalised path owner path/stored path with the privilege of the row, nothing if the owner has nothing. |
| Privileges.LoopEndsIff | source/ngasi/caimito/resource/ResourceStore.java:205-215 | The loop, turn by turn, stops after some number of turns if and only if the way up reaches a missing or administrator owner or one without a row. |
| Privileges.EndsIff | source/ngasi/caimito/resource/ResourceStore.java:196-237 | getUserPriv ends if and only if the user has no row or no way up through owners with rows comes to one of them twice. |
| Privileges.EndlessCycle | source/ngasi/caimito/resource/ResourceStore.java:205-215 | Two users with rows who own each other: the loop is running after every number of turns. |
| Privileges.CycleEnds | source/ngasi/caimito/resource/ResourceStore.java:205-215 | On a cycle with an owner without a row it ends, and answers nothing. |
| Privileges.EffectiveOf | source/ngasi/caimito/resource/ResourceStore.java:196-237 | For every user whose chain of owners has an end: getUserPriv ends, with the path below the whole chain, or nothing if one of it has no row. |
| Privileges.DelegationContained | source/ngasi/caimito/resource/ResourceStore.java:196-237 | A user's effective path starts with that of each owner in the chain and a slash, whatever the stored paths of the user and of the owners between. |
| Privileges.DelegationIff | source/ngasi/caimito/resource/ResourceStore.java:196-237 | For every owner in the chain and every stored path of the user: the effective path starts with the owner's and a slash if and only if the owner's with a slash is normal. |
| Privileges.RegionIff | source/ngasi/caimito/resource/ResourceStore.java:304-312 | For every owner in the chain: its region admits all that the regions of its users admit, whatever their stored paths, if and only if the owner's effective path with a slash is normal. |
| Privileges.CleanSuffices | source/ngasi/caimito/resource/ResourceStore.java:196-237 | An owner whose stored path is normal and has no boundary slash meets that condition below any owners. |
| Privileges.RegionContained | source/ngasi/caimito/resource/ResourceStore.java:304-312 | Every path that the region check admits for a user it admits for each owner with a clean stored path. |
| Privileges.SlashEscapes | source/ngasi/caimito/resource/ResourceStore.java:196-237 | A concrete owner stored as `a/` whose user reaches a path outside the owner's region. |
| Lookup.DoPathMatch | source/ngasi/caimito/resource/ResourceStore.java:125-155 | True exactly for a row whose owner has privileges and whose path starts with the owner's path and a slash, or is that path; the holder gets the flag of the row, or the general one for its owner and who oversees the owner; untouched on false. |
| Lookup.CutText | source/ngasi/caimito/resource/ResourceStore.java:105-122 | The paths that pathMatch may ask for: the path itself and everything in front of one of its slashes, but for the empty text. |
| Lookup.PathMatch | source/ngasi/caimito/resource/ResourceStore.java:105-122 | Terminates; true if and only if the path or one of its cuts at a slash is public; the flag left is that of the longest one; untouched on false. |
| Lookup.IsPublicPath | source/ngasi/caimito/resource/ResourceStore.java:86-102 | The same for a path with boundary slashes; the application's own pages are always public and leave the flag alone. |
| Lookup.StrippedText | source/ngasi/caimito/resource/ResourceStore.java:86-102 | One slash in front and one at the end are no part of a public path. |
| Lookup.Lookup | source/ngasi/caimito/resource/ResourceStore.java:240-331 | A resource is granted if and only if the user is an administrator, or reads a public path, or has the privilege in its region, and a protected root has a login. Spelled out on the rows: WRITE goes to nobody else than administrators and users whose row says WRITE, and outside the application's pages; a grant to anyone else than administrators and public readers is below the path of the user, between slashes; and these suffice. A refusal asks for a login exactly if there is none. The user's directory is made exactly in the third case, and the listing flag is set exactly in the second, to that of the longest public cut. |
| Lookup.OwnersMayAccess | source/ngasi/caimito/resource/ResourceStore.java:240-331 | Whatever a user may do, each owner on its way up with a clean path, and for writing with the write privilege, may do. |
| LockServlet.WebdavServlet.IsLocked | source/ngasi/caimito/CaimitoAsyncWebdavServlet.java:1920-1968 | True only if some lock of the list has not expired, has a path that the requested one starts with, and has no token that occurs in the header; false only if there is none, when nothing was removed. The enumeration with removal inside computes the walk of `LockTable`, answer and remaining list. |
| LockTable.BlocksIff | source/ngasi/caimito/CaimitoAsyncWebdavServlet.java:1943-1961 | What it is for a lock to stop a request, in the fields of the lock: in force, path a prefix, no token of it in the header. |
| LockTable.WalkIff | source/ngasi/caimito/CaimitoAsyncWebdavServlet.java:1920-1968 | isLocked answers true if and only if a live lock covers the path without a given token and an even number of expired locks stands directly before it. |
| LockTable.WalkExact | source/ngasi/caimito/CaimitoAsyncWebdavServlet.java:1920-1968 | True is always right, and a call that removes nothing is exact. |
| LockTable.WalkKeepsLive | source/ngasi/caimito/CaimitoAsyncWebdavServlet.java:1920-1968 | A call deletes expired locks only and keeps the order of the others. |
| LockTable.Settle | source/ngasi/caimito/CaimitoAsyncWebdavServlet.java:1920-1968 | Asking until nothing is removed ends within size + 1 calls with the exact answer. |
| LockServlet.WebdavServlet.DoLock | source/ngasi/caimito/CaimitoAsyncWebdavServlet.java:1537-1724 | A creation takes the step of `LockTable`: conflict, refusal, another token on a shared lock, or a new lock; for anything but an existing collection it answers OK and enters nothing. |
| LockServlet.WebdavServlet.FindConflict | source/ngasi/caimito/CaimitoAsyncWebdavServlet.java:1553-1592 | The scan finds something if and only if a live lock stands on a path that starts with the requested one and either is exclusive; the collection locks do not change. |
| LockServlet.WebdavServlet.DoRefresh | source/ngasi/caimito/CaimitoAsyncWebdavServlet.java:1728-1771 | A refresh sets the expiry of exactly the locks on the path one of whose tokens occurs in the header. |
| LockServlet.WebdavServlet.DoUnlock | source/ngasi/caimito/CaimitoAsyncWebdavServlet.java:1806-1880 | doUnlock1: refused as isLocked says, only if a lock keeps the request out, with all tokens kept; else the first given token goes, and the lock with its last token. |
| LockTable.GrantedIff | source/ngasi/caimito/CaimitoAsyncWebdavServlet.java:1549-1665 | A lock on a collection is refused with CONFLICT exactly if a lock in force at or below the path excludes it, and with LOCKED exactly if otherwise an entry on the path, expired or not, does; both change nothing. Else its token joins the entry of the path, or starts one with its scope and expiry, and every other lock is as it was. On anything else it is answered OK and not entered. |
| LockTable.GrantLiveIff | source/ngasi/caimito/CaimitoAsyncWebdavServlet.java:1634-1665 | A lock granted for a time to come is live if and only if it is a new entry or joined one that had not expired. |
| LockGrants.GrantStays | source/ngasi/caimito/CaimitoAsyncWebdavServlet.java:1537-1880 | In every run a granted lock, shared or exclusive, stays in the table with its token until it expires or an UNLOCK of its path sends the token. |
| LockGrants.GrantProtects | source/ngasi/caimito/CaimitoAsyncWebdavServlet.java:1537-1968 | After such a run an unexpired exclusive lock has only its own token; a request without it below its path is stopped by isLocked if and only if an even number of expired locks stands directly before the lock, or another lock that is seen stops it; asking until nothing is removed always stops it. |
| LockGrants.SteppedOver | source/ngasi/caimito/CaimitoAsyncWebdavServlet.java:1920-1968 | A run of two creations after which isLocked lets a request pass a live exclusive lock. |
| LockTable.DroppedExact | source/ngasi/caimito/CaimitoAsyncWebdavServlet.java:1860-1868 | UNLOCK gives back exactly one token, the first that the header contains, or none. |
| LockTable.ReleasedExact | source/ngasi/caimito/CaimitoAsyncWebdavServlet.java:1852-1876 | What an UNLOCK leaves: of the lock on the path all but the first token that occurs in the header, nothing of it with its last token, and every other lock as it was. |
| LockTable.RunShape | source/ngasi/caimito/CaimitoAsyncWebdavServlet.java:1548-1724 | In every run: paths pairwise distinct, every lock has a token, an exclusive lock exactly one, locks stand in order of creation. |
| LockTable.ExclusiveInTurn | source/ngasi/caimito/CaimitoAsyncWebdavServlet.java:1537-1771 | In every run whose refreshes renew only locks that are live or that no later lock conflicts with: a lock added later on a prefix of an earlier one's path, either being exclusive, found the earlier one expired. |
| LockTable.LiveTogether | source/ngasi/caimito/CaimitoAsyncWebdavServlet.java:1537-1771 | So two such locks that are live at once are both shared. |
| LockTable.RefreshKeepsIff | source/ngasi/caimito/CaimitoAsyncWebdavServlet.java:1728-1771 | A refresh into the future keeps that history if and only if no related lock was added after the lock it renews, which is so if it is live. |
| LockTable.LateRefresh | source/ngasi/caimito/CaimitoAsyncWebdavServlet.java:1728-1771 | A run of three requests in which a refresh of an expired lock breaks the history. |
| LockGrants.GrantCompatibleIff | source/ngasi/caimito/CaimitoAsyncWebdavServlet.java:1549-1665 | After a grant no two live locks on prefix-related paths conflict if and only if the grant joined a lock that was there, or is over already, or no live lock on a prefix of its path is exclusive or meets an exclusive request. |
| LockGrants.RunCompatible | source/ngasi/caimito/CaimitoAsyncWebdavServlet.java:1537-1880 | In every run whose grants meet that condition and whose refreshes renew live locks, live locks on prefix-related paths are shared. |
| LockGrants.AncestorsNotChecked | source/ngasi/caimito/CaimitoAsyncWebdavServlet.java:1553-1592 | For example, below a live exclusive lock another one is granted. |
| LockTable.StaleEntry | source/ngasi/caimito/CaimitoAsyncWebdavServlet.java:1634-1665 | What an expired entry on the requested path does to a creation. |
| CloudCache.StepFresh | source/ngasi/caimito/resource/CloudResourceObj.java:66-119 | Every step of readers and writers, looked or not, keeps: no stamp newer than its content, and what a reader counts on is no older than the stamp it has. |
| CloudCache.CurrentNoOlder | source/ngasi/caimito/resource/CloudResourceObj.java:97-109 | A download of the current version always keeps it. |
| CloudCache.OpenedIsFresh | source/ngasi/caimito/resource/CloudResourceObj.java:66-119 | Over all interleavings from an empty cache whose downloads deliver nothing older than was counted on and whose stamps are set in time, an opened stream holds a version no older than the stamp the reader has. |
| CloudCache.FetchKeepsIff | source/ngasi/caimito/resource/CloudResourceObj.java:97-109 | The version of a download is no older than what it and every reader counting on the file saw if and only if no disciplined continuation serves any reader a stream older than it saw. |
| CloudCache.StampKeepsIff | source/ngasi/caimito/resource/CloudResourceObj.java:103-105 | A stamp is set by a reader that looked before the download, or on content that is still current, if and only if no disciplined continuation serves any reader a stale stream. |
| CloudCache.OtherStepsKeep | source/ngasi/caimito/resource/CloudResourceObj.java:66-119 | No other step can lead to a stale stream, a reader that starts without looking included. |
| CloudCache.SlowDownload | source/ngasi/caimito/resource/CloudResourceObj.java:97-109 | A run in which a download that is not atomic gives a reader an older version than it saw. |
| CloudCache.LateInit | source/ngasi/caimito/resource/CloudResourceObj.java:66-119 | A run in which a reader that did not look first stamps an old version with a new stamp, and a later reader that looked is served it. |
| CloudCache.CloudResourceObj.DoGetInputStream | source/ngasi/caimito/resource/CloudResourceObj.java:66-119 | An undisturbed call serves the file, and changes nothing, exactly if its stamp is the one that init remembers or gets; else it serves the current version and leaves it in the file, stamped only if it may serve again. It is a run of the machine, and after a lookup on a fresh cache it delivers what was seen or newer. |
| HttpText.PrintParse | source/ngasi/caimito/CaimitoDefaultServlet.java:1134-1137 | Printing a number and parsing it gives the number back exactly if it fits 64 bits. |
| HttpText.PrintText | source/ngasi/caimito/CaimitoDefaultServlet.java:1134-1137 | A number is printed in digits without a leading zero, after a dash if it is negative. |
| HttpText.ParseLongIff | source/ngasi/caimito/CaimitoDefaultServlet.java:1357-1384 | What parses as a number: exactly an optional sign and digits whose decimal value fits 64 bits, to that value. |
| HttpText.TrimIs | source/ngasi/caimito/CaimitoDefaultServlet.java:1338-1338 | Trimming splits a text into blanks, the result and blanks, and the result has no blank at either end. |
| HttpText.TrimPadded | source/ngasi/caimito/CaimitoDefaultServlet.java:1338-1338 | A text without blanks at its ends is the result exactly for the texts that are blanks, it, and blanks. |
| HttpText.TokensOfJoin | source/ngasi/caimito/CaimitoDefaultServlet.java:1332-1341 | Splitting a comma list gives its items back, but for the empty ones, which are lost. |
| HttpText.TokensJoin | source/ngasi/caimito/CaimitoDefaultServlet.java:1332-1341 | Splitting a comma list at its commas gives its items back. |
| ByteRanges.Range.Validate | source/ngasi/caimito/CaimitoDefaultServlet.java:2333-2337 | The end is cut to the last byte of the content, and the answer says whether 0 <= start <= end < length then. |
| ByteRanges.ParseRange | source/ngasi/caimito/CaimitoDefaultServlet.java:1273-1411 | The full content comes out exactly if If-Range is there and holds another tag than the current one, blanks aside, or a date more than a second before the last change; else no range, 416, an exception or the list; a list only if every definition is valid, one range each, in order. |
| ByteRanges.IfRangeEcho | source/ngasi/caimito/CaimitoDefaultServlet.java:1277-1313 | If-Range with a version's tag, blanks around it or not, gives the full content if and only if that version is not current. |
| ByteRanges.IfRangeDateEcho | source/ngasi/caimito/CaimitoDefaultServlet.java:1277-1313 | If-Range with the date of a version, cut to seconds, gives the full content if and only if the resource was changed more than a second after that date. |
| ByteRanges.DefinitionMeaning | source/ngasi/caimito/CaimitoDefaultServlet.java:1326-1403 | `a-b`, `a-` and `-n` are read as the bytes they ask for (section 2.1 of RFC 7233), for all numbers of any size. |
| ByteRanges.HeaderMeaning | source/ngasi/caimito/CaimitoDefaultServlet.java:1316-1408 | A header that lists any forms, with any blanks around each, is answered by their ranges in order, or refused if one of them cannot be met. |
| ByteRanges.DefinitionIff | source/ngasi/caimito/CaimitoDefaultServlet.java:1338-1403 | Whatever a definition says, it gives a range if and only if it is a dash and a number that counts from the end, or a number, its first dash, and nothing or a number, and 0 <= start <= end < length once the end is cut. |
| ByteRanges.DefinitionsIff | source/ngasi/caimito/CaimitoDefaultServlet.java:1332-1408 | Whatever the header, its result is a list if and only if each trimmed token asks for the range at its place, one per token. |
| ByteRanges.NoOverflow | source/ngasi/caimito/CaimitoDefaultServlet.java:1356-1363 | Neither length + offset nor end - start + 1 leaves 64 bits. |
| ByteRanges.ParseContentRange | source/ngasi/caimito/CaimitoDefaultServlet.java:1202-1263 | It parses if and only if the header is `bytes`, one character, and between blanks first-last/total with three longs, first <= last and first < total, to first, the smaller of last and total - 1, and total, a range that can be served; it throws for the bare word `bytes` only, and anything else is a 400. |
| ByteRanges.ContentRangeRoundTrip | source/ngasi/caimito/CaimitoDefaultServlet.java:1134-1137 | The header printed for a range that can be served parses back to that range (section 4.2 of RFC 7233). |
| ServeRange.CopyRange | source/ngasi/caimito/CaimitoDefaultServlet.java:2275-2318 | Writes a prefix of the range whatever the stream does, the range itself with full reads; without an error less than the range if and only if a read before the last byte filled less than the buffer; write is called with length -1 exactly if the content ends early at a buffer boundary. |
| ServeRange.CopyPart | source/ngasi/caimito/CaimitoDefaultServlet.java:2169-2185 | One part: its header, and a prefix of its bytes whatever the stream does, all of them with full reads; a range within the content never leads to a negative write. |
| ServeRange.PartHeaderText | source/ngasi/caimito/CaimitoDefaultServlet.java:2169-2190 | The text in front of a part, line by line, the Content-Range value of which parses to the range, and the closing boundary. |
| ServeRange.CopyRanges | source/ngasi/caimito/CaimitoDefaultServlet.java:2158-2196 | The multipart answer: for every range in order, up to the first exception, its own header and a prefix of its bytes, all of them with full reads, and then the closing boundary. |
| ServeRange.Download | source/ngasi/caimito/CaimitoDefaultServlet.java:2275-2318 | Answers of copyRange to ranges that partition the content, one after the other, write the content. |
| Validators.ETagInjective | source/ngasi/caimito/resource/ResourceObj.java:157-166 | Two resources with the same tag have the same length and time, of whatever sign. |
| Validators.ETagText | source/ngasi/caimito/resource/ResourceObj.java:157-166 | There is a tag exactly if the length or the time is known; it shows both in decimal, the length first. |
| Validators.CheckIfHeaders | source/ngasi/caimito/CaimitoDefaultServlet.java:834-844 | The first failing condition, in the order match, modified, none-match, unmodified, decides between 304 and 412. |
| Validators.CheckIfMatch | source/ngasi/caimito/CaimitoDefaultServlet.java:1856-1890 | Passes if and only if the header is absent, holds a `*`, or one token of it is blanks, the current tag, and blanks. |
| Validators.CheckIfModifiedSince | source/ngasi/caimito/CaimitoDefaultServlet.java:1903-1928 | 304 if and only if there is a date, no If-None-Match, and no change from a second after the date on. |
| Validators.CheckIfNoneMatch | source/ngasi/caimito/CaimitoDefaultServlet.java:1941-1987 | Stops if and only if the header is `*` or one token of it is blanks, the current tag, and blanks: 304 for GET and HEAD, else 412. |
| Validators.CheckIfUnmodifiedSince | source/ngasi/caimito/CaimitoDefaultServlet.java:2000-2021 | 412 if and only if there is a date and a change from a second after it on. |
| Validators.NoneMatchEcho | source/ngasi/caimito/CaimitoDefaultServlet.java:1941-1987 | For any comma list of tags of versions, with any blanks around each, beside any dates: 304 (or 412) if and only if the resource is one of the versions; If-Modified-Since is out of force. |
| Validators.MatchEcho | source/ngasi/caimito/CaimitoDefaultServlet.java:1856-1890 | For any such list, beside any other header fields: 412 unless the resource is one of the versions, and then what the other fields alone give. |
| Validators.Stars | source/ngasi/caimito/CaimitoDefaultServlet.java:1856-1987 | `*` anywhere in If-Match is no condition; `*` as If-None-Match stops every request, 304 for GET and HEAD, else 412. |
| Validators.DatesDecide | source/ngasi/caimito/CaimitoDefaultServlet.java:1903-2021 | With dates only: 304 exactly for an If-Modified-Since with no change from a second after it on, else 412 exactly for an If-Unmodified-Since with one; no date, or none that can be read, is no condition. |
| Validators.ModifiedEcho | source/ngasi/caimito/CaimitoDefaultServlet.java:1903-1928 | Echoing Last-Modified cut to seconds gives 304 if and only if there was no change in a later second. |
| Validators.UnmodifiedEcho | source/ngasi/caimito/CaimitoDefaultServlet.java:2000-2021 | The same echo in If-Unmodified-Since lets a request through in exactly these cases. |
| Validators.EchoBoth | source/ngasi/caimito/CaimitoDefaultServlet.java:834-844 | Echoing tag and date together gives 304 if and only if that very version is current. |
| Validators.SinceExclusive | source/ngasi/caimito/CaimitoDefaultServlet.java:834-844 | With the same date in both date headers a request never goes on. |

## Left out

- OpenStack.OpenStackResourceObj.Init: does not model the time and the length it remembers, or the fall-back to the cache file when the request fails.
- OpenStack.OpenStackResourceObj.DoCopy: does not state the result when the destination lies at or above an existing source and some object of the tree is copied onto another one of it (`TreeDetached.SeparateAboveIff`); that it ends is `CopyCalls.CopyEndsIff`. A copy that does not end has no result.
- OpenStack.OpenStackResourceObj.DoMove: as DoCopy.
- Propfind.DoPropfind: does not model locks on lock-null resources (never entered) or the lookup of each node, which always succeeds for an administrator.
- WebdavCopyMove.WebdavServlet.Prepare: does not model the parsing of the Destination URL, users other than administrators, or requests on the container root that are not refused.
- WebdavCopyMove.WebdavServlet.CopyResource: as Prepare; excluded are requests whose copy never ends and, in a store that is not closed, a source that survives the clearing of a destination above it and is copied onto itself in part.
- WebdavCopyMove.WebdavServlet.MoveResource: as CopyResource.
- Lookup.Lookup: does not model the database errors that count as "not public", or the login, whose result is a parameter.
- LockServlet.WebdavServlet.DoLock: does not model the depth, owner and timeout headers, the XML body, or how tokens are made; scope, token, expiry and whether the path is an existing collection locked with infinite depth are parameters. The loop over locks of the same path is a search for the first, since paths are distinct (`LockTable.RunShape`).
- LockServlet.WebdavServlet.IsLocked: the branches on `resourceLocks` are left out, since that table stays empty.
- CloudCache.OpenedIsFresh: does not cover deletion of the cloud object during a read, or a reader that opens a file while it is being written.
- HttpText.PrintParse: digits are ASCII digits; other Unicode digits, which Long.parseLong also reads, are not modelled.
- ServeRange.CopyRanges: the reader and writer forms of copyRange, for text output, are not modelled.
- CacheMgr as a mutual-exclusion lock: it does not exclude, so the cache is modelled without it.
- Limits on the length of a container listing, client error handling, retries and timeouts of the HTTP client.
- OpenStack authentication, JSON parsing, SQL, Basic and Digest login.
- XML and HTML output, DOM parsing, PROPPATCH, MKCOL, PUT, and the servlet, Comet and asynchronous plumbing.
- The storage juggling for `cloud_accounts_for_administration_only`, and the file and Shaft resources.
- The lock code of CaimitoWebdavServlet, which repeats that of the asynchronous servlet, and the unused JNDI methods.
