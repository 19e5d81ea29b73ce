/**
 * The read cache of cloud objects (CloudResourceObj.doGetInputStream and doDelete, with the
 * lazy `init`): readers and writers interleave without mutual exclusion around one cached file.
 */
module CloudCache {
  import opened Basics

  /** A cached file: the version of the object it holds, and its stamp. A fresh file carries the
      time of its download, which never equals a cloud stamp: None. */
  datatype File = File(content: nat, stamp: Option<nat>)

  /** Where a reader stands. lm is the last-modified stamp it got from `init`, if init has run. */
  datatype Reader =
    | Ready(lm: Option<nat>)
    | Hit(lm: Option<nat>)
    | Missed(lm: Option<nat>)
    | Emptied(lm: Option<nat>)
    | Fetched(lm: Option<nat>)
    | Stamped(lm: Option<nat>)
    | Opened(lm: Option<nat>, got: nat)
    | Failed(lm: Option<nat>)

  /** The object in the cloud, named by the stamp of its last write, the cached file and the readers. */
  datatype State = State(cloud: nat, file: Option<File>, readers: map<nat, Reader>)

  datatype Step =
    | Lookup(r: nat)             // exists(): init runs and remembers the stamp
    | Start(r: nat)              // a reader that has not run init
    | CheckCache(r: nat)         // exists, and stamp equals getLastModified()
    | DeleteFile(r: nat)         // new File(tf).delete()
    | Fetch(r: nat, v: nat)      // retrieveCloudFile puts version v into the file
    | Stamp(r: nat)              // setLastModified(getLastModified())
    | Open(r: nat)               // new FileInputStream(tf)
    | Write(v: nat)              // a PUT to the cloud
    | Purge                      // doDelete removes the cached file

  /** getLastModified(): what init remembered, or the stamp the cloud has now. */
  function LastModified(s: State, rd: Reader): nat {
    if rd.lm.Some? then rd.lm.value else s.cloud
  }

  predicate Enabled(s: State, e: Step) {
    match e
    case Lookup(r) => r !in s.readers
    case Start(r) => r !in s.readers
    case CheckCache(r) => r in s.readers && s.readers[r].Ready?
    case DeleteFile(r) => r in s.readers && s.readers[r].Missed?
    case Fetch(r, v) => r in s.readers && s.readers[r].Emptied? && v <= s.cloud
    case Stamp(r) => r in s.readers && s.readers[r].Fetched?
    case Open(r) => r in s.readers && (s.readers[r].Hit? || s.readers[r].Stamped?)
    case Write(v) => v > s.cloud
    case Purge => true
  }

  function Put(s: State, r: nat, rd: Reader): State {
    s.(readers := s.readers[r := rd])
  }

  function Next(s: State, e: Step, cacheable: bool): State
    requires Enabled(s, e)
  {
    match e
    case Lookup(r) => Put(s, r, Ready(Some(s.cloud)))
    case Start(r) => Put(s, r, Ready(None))
    case CheckCache(r) =>
      var rd := s.readers[r];
      if cacheable && s.file.Some? then
        var lm := LastModified(s, rd);
        Put(s, r, if s.file.value.stamp == Some(lm) then Hit(Some(lm)) else Missed(Some(lm)))
      else Put(s, r, Missed(rd.lm))
    case DeleteFile(r) => Put(s, r, Emptied(s.readers[r].lm)).(file := None)
    case Fetch(r, v) => Put(s, r, Fetched(s.readers[r].lm)).(file := Some(File(v, None)))
    case Stamp(r) =>
      var rd := s.readers[r];
      if !cacheable then Put(s, r, Stamped(rd.lm))
      else
        var lm := LastModified(s, rd);
        Put(s, r, Stamped(Some(lm))).(file := if s.file.Some? then Some(s.file.value.(stamp := Some(lm))) else None)
    case Open(r) =>
      var rd := s.readers[r];
      Put(s, r, if s.file.Some? then Opened(rd.lm, s.file.value.content) else Failed(rd.lm))
    case Write(v) => s.(cloud := v)
    case Purge => s.(file := None)
  }

  // ---- Freshness ----

  /** Between its check or its fetch and its open, a reader counts on what the file holds. */
  predicate Pending(rd: Reader) {
    rd.Hit? || rd.Fetched? || rd.Stamped?
  }

  ghost predicate ReaderFresh(s: State, rd: Reader) {
    rd.lm.Some? ==>
      rd.lm.value <= s.cloud &&
      (Pending(rd) && s.file.Some? ==> rd.lm.value <= s.file.value.content) &&
      (rd.Opened? ==> rd.lm.value <= rd.got)
  }

  /** No stamp is newer than the content, and every reader that has a stamp gets what it saw or newer. */
  ghost predicate Fresh(s: State) {
    (s.file.Some? ==> s.file.value.content <= s.cloud &&
                      (s.file.value.stamp.Some? ==> s.file.value.stamp.value <= s.file.value.content)) &&
    (forall r :: r in s.readers ==> ReaderFresh(s, s.readers[r]))
  }

  /** Version v is no older than what reader r saw, and every reader that counts on the file. */
  ghost predicate NoOlder(s: State, r: nat, v: nat)
    requires r in s.readers
  {
    (s.readers[r].lm.Some? ==> s.readers[r].lm.value <= v) &&
    (forall q :: q in s.readers && Pending(s.readers[q]) && s.readers[q].lm.Some? ==> s.readers[q].lm.value <= v)
  }

  /** The stamp that reader r is about to set was seen before the download, or the file is still current. */
  predicate StampInTime(s: State, r: nat, cacheable: bool)
    requires r in s.readers
  {
    cacheable ==> s.readers[r].lm.Some? || s.file.None? || s.file.value.content == s.cloud
  }

  /** A download delivers no version older than was counted on, and a stamp is set in time. */
  ghost predicate Disciplined(s: State, e: Step, cacheable: bool)
    requires Enabled(s, e)
  {
    (e.Fetch? ==> NoOlder(s, e.r, e.v)) && (e.Stamp? ==> StampInTime(s, e.r, cacheable))
  }

  /** The version that is current when the download arrives is always good. */
  lemma CurrentNoOlder(s: State, r: nat)
    requires Fresh(s) && r in s.readers
    ensures NoOlder(s, r, s.cloud)
  {
    forall q | q in s.readers ensures s.readers[q].lm.Some? ==> s.readers[q].lm.value <= s.cloud {
      assert ReaderFresh(s, s.readers[q]);
    }
  }

  lemma StepFresh(s: State, e: Step, cacheable: bool)
    requires Fresh(s) && Enabled(s, e) && Disciplined(s, e, cacheable)
    ensures Fresh(Next(s, e, cacheable))
  {
    var t := Next(s, e, cacheable);
    forall r | r in t.readers ensures ReaderFresh(t, t.readers[r]) {
      if r in s.readers {
        assert ReaderFresh(s, s.readers[r]);
      }
    }
  }

  /** A run from s: every step enabled. */
  ghost predicate IsRun(s: State, es: seq<Step>, cacheable: bool)
    decreases |es|
  {
    es == [] || (Enabled(s, es[0]) && IsRun(Next(s, es[0], cacheable), es[1..], cacheable))
  }

  ghost function After(s: State, es: seq<Step>, cacheable: bool): State
    requires IsRun(s, es, cacheable)
    decreases |es|
  {
    if es == [] then s else After(Next(s, es[0], cacheable), es[1..], cacheable)
  }

  ghost predicate DisciplinedRun(s: State, es: seq<Step>, cacheable: bool)
    decreases |es|
  {
    es == [] ||
    (Enabled(s, es[0]) && Disciplined(s, es[0], cacheable) &&
     DisciplinedRun(Next(s, es[0], cacheable), es[1..], cacheable))
  }

  lemma {:induction false} DisciplinedIsRun(s: State, es: seq<Step>, cacheable: bool)
    requires DisciplinedRun(s, es, cacheable)
    ensures IsRun(s, es, cacheable)
    decreases |es|
  {
    if es != [] {
      DisciplinedIsRun(Next(s, es[0], cacheable), es[1..], cacheable);
    }
  }

  lemma {:induction false} RunFresh(s: State, es: seq<Step>, cacheable: bool)
    requires Fresh(s) && DisciplinedRun(s, es, cacheable)
    ensures IsRun(s, es, cacheable) && Fresh(After(s, es, cacheable))
    decreases |es|
  {
    if es != [] {
      StepFresh(s, es[0], cacheable);
      RunFresh(Next(s, es[0], cacheable), es[1..], cacheable);
    }
  }

  /**
   * Freshness over all interleavings: from an empty cache, whatever readers and writers do in
   * whatever order, a stream that is opened holds a version at least as new as the reader saw.
   */
  lemma OpenedIsFresh(cloud: nat, es: seq<Step>, cacheable: bool, r: nat)
    requires DisciplinedRun(State(cloud, None, map[]), es, cacheable)
    ensures IsRun(State(cloud, None, map[]), es, cacheable)
    ensures var s := After(State(cloud, None, map[]), es, cacheable);
      r in s.readers && s.readers[r].Opened? && s.readers[r].lm.Some? ==> s.readers[r].lm.value <= s.readers[r].got
  {
    var s0 := State(cloud, None, map[]);
    RunFresh(s0, es, cacheable);
    var s := After(s0, es, cacheable);
    if r in s.readers {
      assert ReaderFresh(s, s.readers[r]);
    }
  }

  // ---- Where the guarantee ends ----

  /** Reader q holds a stream that is older than the stamp it has. */
  predicate Stale(s: State, q: nat) {
    q in s.readers && s.readers[q].Opened? && s.readers[q].lm.Some? && s.readers[q].got < s.readers[q].lm.value
  }

  /** A disciplined run from s in which reader q gets a stale stream. */
  ghost predicate LeadsToStale(s: State, es: seq<Step>, cacheable: bool, q: nat) {
    DisciplinedRun(s, es, cacheable) && IsRun(s, es, cacheable) && Stale(After(s, es, cacheable), q)
  }

  lemma OneStep(s: State, e: Step, cacheable: bool)
    requires Enabled(s, e) && Disciplined(s, e, cacheable)
    ensures DisciplinedRun(s, [e], cacheable) && IsRun(s, [e], cacheable)
    ensures After(s, [e], cacheable) == Next(s, e, cacheable)
  {
    assert [e][1..] == [];
  }

  lemma MoreSteps(s: State, e: Step, es: seq<Step>, cacheable: bool)
    requires Enabled(s, e) && Disciplined(s, e, cacheable) && DisciplinedRun(Next(s, e, cacheable), es, cacheable)
    ensures DisciplinedRun(s, [e] + es, cacheable) && IsRun(s, [e] + es, cacheable)
    ensures IsRun(Next(s, e, cacheable), es, cacheable)
    ensures After(s, [e] + es, cacheable) == After(Next(s, e, cacheable), es, cacheable)
  {
    assert ([e] + es)[1..] == es;
    DisciplinedIsRun(Next(s, e, cacheable), es, cacheable);
  }

  /** A reader that counts on a file older than it saw opens it, after its stamp if that is still to come. */
  lemma PendingStale(s: State, q: nat, cacheable: bool) returns (es: seq<Step>)
    requires q in s.readers && Pending(s.readers[q]) && s.readers[q].lm.Some?
    requires s.file.Some? && s.file.value.content < s.readers[q].lm.value
    ensures LeadsToStale(s, es, cacheable, q)
  {
    if s.readers[q].Fetched? {
      var t := Next(s, Stamp(q), cacheable);
      OneStep(t, Open(q), cacheable);
      MoreSteps(s, Stamp(q), [Open(q)], cacheable);
      es := [Stamp(q)] + [Open(q)];
    } else {
      OneStep(s, Open(q), cacheable);
      es := [Open(q)];
    }
  }

  lemma {:induction false} NewReader(readers: set<nat>) returns (q: nat)
    ensures forall r :: r in readers ==> r < q
  {
    q := 0;
    if readers != {} {
      var r :| r in readers;
      var p := NewReader(readers - {r});
      q := if p <= r then r + 1 else p;
      assert forall x :: x in readers ==> x == r || x in readers - {r};
    }
  }

  /** A file with the cloud's stamp and older content: any reader that comes now, looks and hits is served it. */
  lemma StampStale(s: State, q: nat) returns (es: seq<Step>)
    requires q !in s.readers && s.file.Some? && s.file.value.stamp == Some(s.cloud) && s.file.value.content < s.cloud
    ensures es == [Lookup(q)] + ([CheckCache(q)] + [Open(q)]) && LeadsToStale(s, es, true, q)
  {
    var t := Next(s, Lookup(q), true);
    var u := Next(t, CheckCache(q), true);
    OneStep(u, Open(q), true);
    MoreSteps(t, CheckCache(q), [Open(q)], true);
    MoreSteps(s, Lookup(q), [CheckCache(q)] + [Open(q)], true);
    es := [Lookup(q)] + ([CheckCache(q)] + [Open(q)]);
  }

  /**
   * The condition on a download is exact, in terms of what readers get: it is met if and only if
   * no disciplined continuation serves any reader a stream older than it saw.
   */
  lemma FetchKeepsIff(s: State, r: nat, v: nat, cacheable: bool)
    requires Fresh(s) && Enabled(s, Fetch(r, v))
    ensures NoOlder(s, r, v) <==>
            forall es, q :: !LeadsToStale(Next(s, Fetch(r, v), cacheable), es, cacheable, q)
  {
    var t := Next(s, Fetch(r, v), cacheable);
    if NoOlder(s, r, v) {
      StepFresh(s, Fetch(r, v), cacheable);
      FreshNeverStale(t, cacheable);
    } else {
      var q :| q in s.readers && (q == r || Pending(s.readers[q])) &&
               s.readers[q].lm.Some? && v < s.readers[q].lm.value;
      var es := PendingStale(t, q, cacheable);
    }
  }

  lemma FreshNeverStale(s: State, cacheable: bool)
    requires Fresh(s)
    ensures forall es, q :: !LeadsToStale(s, es, cacheable, q)
  {
    forall es, q ensures !LeadsToStale(s, es, cacheable, q) {
      if DisciplinedRun(s, es, cacheable) {
        RunFresh(s, es, cacheable);
        var u := After(s, es, cacheable);
        if q in u.readers { assert ReaderFresh(u, u.readers[q]); }
      }
    }
  }

  /**
   * So is the condition on setting a stamp. A reader that has not looked does harm exactly if the
   * object was written between its download and its stamp; the readers harmed come later.
   */
  lemma StampKeepsIff(s: State, r: nat, cacheable: bool)
    requires Fresh(s) && Enabled(s, Stamp(r))
    ensures StampInTime(s, r, cacheable) <==>
            forall es, q :: !LeadsToStale(Next(s, Stamp(r), cacheable), es, cacheable, q)
  {
    var t := Next(s, Stamp(r), cacheable);
    if StampInTime(s, r, cacheable) {
      StepFresh(s, Stamp(r), cacheable);
      FreshNeverStale(t, cacheable);
    } else {
      var q := NewReader(t.readers.Keys);
      var es := StampStale(t, q);
    }
  }

  /** No other step can do harm, a reader that starts without looking included. */
  lemma OtherStepsKeep(s: State, e: Step, cacheable: bool)
    requires Fresh(s) && Enabled(s, e) && !e.Fetch? && !e.Stamp?
    ensures forall es, q :: !LeadsToStale(Next(s, e, cacheable), es, cacheable, q)
  {
    StepFresh(s, e, cacheable);
    FreshNeverStale(Next(s, e, cacheable), cacheable);
  }

  ghost predicate Reaches(s: State, t: State) {
    exists es :: IsRun(s, es, true) && After(s, es, true) == t
  }

  lemma {:induction false} RunAppend(s: State, es: seq<Step>, e: Step)
    requires IsRun(s, es, true) && Enabled(After(s, es, true), e)
    ensures IsRun(s, es + [e], true) && After(s, es + [e], true) == Next(After(s, es, true), e, true)
    decreases |es|
  {
    if es == [] {
      assert es + [e] == [e] && [e][1..] == [];
    } else {
      assert (es + [e])[1..] == es[1..] + [e];
      RunAppend(Next(s, es[0], true), es[1..], e);
    }
  }

  lemma Reach(s: State, t: State, e: Step) returns (u: State)
    requires Reaches(s, t) && Enabled(t, e)
    ensures u == Next(t, e, true) && Reaches(s, u)
  {
    var es :| IsRun(s, es, true) && After(s, es, true) == t;
    RunAppend(s, es, e);
    u := Next(t, e, true);
  }

  lemma ReachStart(s: State)
    ensures Reaches(s, s)
  {
    assert IsRun(s, [], true);
  }

  /**
   * A slow download: reader 0 is sent version 1, but its file arrives after reader 1 fetched
   * version 2 and before reader 1 stamps it. Reader 1 saw 2 and reads 1.
   */
  lemma SlowDownload() returns (s: State)
    ensures Reaches(State(1, None, map[]), s) && s.readers.Keys == {0, 1}
    ensures s.readers[1] == Opened(Some(2), 1)
  {
    var s0 := State(1, None, map[]);
    ReachStart(s0);
    s := Reach(s0, s0, Lookup(0));
    s := Reach(s0, s, CheckCache(0));
    s := Reach(s0, s, DeleteFile(0));
    s := Reach(s0, s, Write(2));
    s := Reach(s0, s, Lookup(1));
    s := Reach(s0, s, CheckCache(1));
    s := Reach(s0, s, DeleteFile(1));
    s := Reach(s0, s, Fetch(1, 2));
    s := Reach(s0, s, Fetch(0, 1));
    s := Reach(s0, s, Stamp(1));
    s := Reach(s0, s, Open(1));
  }

  /** A stamp that is taken after the download and a write: reader 1 hits version 1 stamped 2. */
  lemma LateInit() returns (s: State)
    ensures Reaches(State(1, None, map[]), s) && s.readers.Keys == {0, 1}
    ensures s.readers[1] == Opened(Some(2), 1)
  {
    var s0 := State(1, None, map[]);
    ReachStart(s0);
    s := Reach(s0, s0, Start(0));
    s := Reach(s0, s, CheckCache(0));
    s := Reach(s0, s, DeleteFile(0));
    s := Reach(s0, s, Fetch(0, 1));
    s := Reach(s0, s, Write(2));
    s := Reach(s0, s, Stamp(0));
    s := Reach(s0, s, Lookup(1));
    s := Reach(s0, s, CheckCache(1));
    s := Reach(s0, s, Open(1));
  }

  // ---- One undisturbed call ----

  /** The cache directory and the cloud, seen by one resource. */
  class Storage {
    var cloud: nat
    var file: Option<File>
    const cacheable: bool

    constructor (cloud: nat, cacheable: bool)
      ensures this.cloud == cloud && file == None && this.cacheable == cacheable
    {
      this.cloud, this.file, this.cacheable := cloud, None, cacheable;
    }

    ghost function View(readers: map<nat, Reader>): State
      reads this
    {
      State(cloud, file, readers)
    }
  }

  class CloudResourceObj {
    const storage: Storage
    var init: bool
    var lm: nat

    constructor (storage: Storage)
      ensures this.storage == storage && !init
    {
      this.storage, init, lm := storage, false, 0;
    }

    ghost function Remembered(): Option<nat>
      reads this
    {
      if init then Some(lm) else None
    }

    method GetLastModified() returns (stamp: nat)
      modifies this
      ensures init && stamp == lm
      ensures lm == if old(init) then old(lm) else storage.cloud
    {
      if !init {
        init := true;
        lm := storage.cloud;
      }
      stamp := lm;
    }

    /**
     * doGetInputStream, undisturbed: `steps` are the steps of the machine it takes, one a line;
     * got is the version in the stream.
     */
    method DoGetInputStream() returns (got: nat, ghost steps: seq<Step>)
      modifies this, storage
      // a hit, when the stamp of the file is the one that init remembers or gets: nothing changes
      ensures storage.cloud == old(storage.cloud)
      ensures storage.cacheable && old(storage.file).Some? &&
              old(storage.file).value.stamp == Some(if old(init) then old(lm) else storage.cloud) ==>
                got == old(storage.file).value.content && storage.file == old(storage.file)
      // else the current version, which is left in the file, stamped if it may serve again
      ensures !(storage.cacheable && old(storage.file).Some? &&
                old(storage.file).value.stamp == Some(if old(init) then old(lm) else storage.cloud)) ==>
                got == storage.cloud && storage.file == Some(File(got, if storage.cacheable then Some(lm) else None))
      ensures var s := State(old(storage.cloud), old(storage.file), map[0 := Ready(old(Remembered()))]);
        IsRun(s, steps, storage.cacheable) &&
        After(s, steps, storage.cacheable) == storage.View(map[0 := Opened(Remembered(), got)])
      ensures old(init) && Fresh(State(old(storage.cloud), old(storage.file), map[0 := Ready(old(Remembered()))])) ==>
                old(lm) <= got
    {
      ghost var s0 := storage.View(map[0 := Ready(Remembered())]);
      ghost var c := storage.cacheable;
      if storage.cacheable {
        if storage.file.Some? {
          var stamp := GetLastModified();
          if storage.file.value.stamp == Some(stamp) {
            got := storage.file.value.content;
            steps := [CheckCache(0), Open(0)];
            TwoSteps(s0, CheckCache(0), Open(0), c);
            return;
          }
        }
      }
      ghost var s1 := Next(s0, CheckCache(0), c);
      assert s1 == storage.View(map[0 := Missed(Remembered())]);
      storage.file := None;
      storage.file := Some(File(storage.cloud, None));
      if storage.cacheable {
        var stamp := GetLastModified();
        storage.file := Some(storage.file.value.(stamp := Some(stamp)));
      }
      got := storage.file.value.content;
      MissRun(s1, c);
      ghost var rest := [DeleteFile(0), Fetch(0, s1.cloud), Stamp(0), Open(0)];
      steps := [CheckCache(0)] + rest;
      OneMore(s0, CheckCache(0), rest, c);
      if old(init) && Fresh(s0) {
        assert ReaderFresh(s0, s0.readers[0]);
      }
    }
  }

  /** A miss, step by step. */
  lemma MissRun(s: State, cacheable: bool)
    requires s.readers.Keys == {0} && s.readers[0].Missed?
    ensures var es := [DeleteFile(0), Fetch(0, s.cloud), Stamp(0), Open(0)];
      var lm := if cacheable then Some(LastModified(s, s.readers[0])) else s.readers[0].lm;
      IsRun(s, es, cacheable) &&
      After(s, es, cacheable) ==
        State(s.cloud, Some(File(s.cloud, if cacheable then lm else None)), map[0 := Opened(lm, s.cloud)])
  {
    var s2 := Next(s, DeleteFile(0), cacheable);
    var s3 := Next(s2, Fetch(0, s.cloud), cacheable);
    TwoSteps(s3, Stamp(0), Open(0), cacheable);
    OneMore(s2, Fetch(0, s.cloud), [Stamp(0), Open(0)], cacheable);
    OneMore(s, DeleteFile(0), [Fetch(0, s.cloud), Stamp(0), Open(0)], cacheable);
    assert [DeleteFile(0)] + [Fetch(0, s.cloud), Stamp(0), Open(0)] ==
           [DeleteFile(0), Fetch(0, s.cloud), Stamp(0), Open(0)];
    assert [Fetch(0, s.cloud)] + [Stamp(0), Open(0)] == [Fetch(0, s.cloud), Stamp(0), Open(0)];
    assert After(s, [DeleteFile(0), Fetch(0, s.cloud), Stamp(0), Open(0)], cacheable).readers.Keys == {0};
  }

  lemma OneMore(s: State, e: Step, rest: seq<Step>, cacheable: bool)
    requires Enabled(s, e) && IsRun(Next(s, e, cacheable), rest, cacheable)
    ensures IsRun(s, [e] + rest, cacheable)
    ensures After(s, [e] + rest, cacheable) == After(Next(s, e, cacheable), rest, cacheable)
  {
    assert ([e] + rest)[1..] == rest;
  }

  lemma TwoSteps(s: State, e: Step, f: Step, cacheable: bool)
    requires Enabled(s, e) && Enabled(Next(s, e, cacheable), f)
    ensures IsRun(s, [e, f], cacheable)
    ensures After(s, [e, f], cacheable) == Next(Next(s, e, cacheable), f, cacheable)
  {
    var t := Next(s, e, cacheable);
    assert IsRun(Next(t, f, cacheable), [], cacheable);
    OneMore(t, f, [], cacheable);
    assert [f] + [] == [f] && [e] + [f] == [e, f];
    OneMore(s, e, [f], cacheable);
  }
}
