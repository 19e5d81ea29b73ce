/**
 * The overwrite logic of COPY and MOVE (CaimitoAsyncWebdavServlet.copyResource and
 * moveResource) for an administrator, whose lookups always succeed and change nothing.
 */
module WebdavCopyMove {
  import opened Basics
  import opened Paths
  import opened ObjectTree
  import opened TreeDelete
  import opened TreeDetached
  import opened TreeMove
  import opened OpenStack

  const SC_CREATED := 201
  const SC_NO_CONTENT := 204
  const SC_BAD_REQUEST := 400
  const SC_FORBIDDEN := 403
  const SC_PRECONDITION_FAILED := 412

  /** The parts of the request that decide: its path, and its Destination and Overwrite headers. */
  datatype Request = Request(path: string, destination: Option<string>, overwrite: Option<string>)

  predicate RootPath(path: string) {
    path == "" || path == "/"
  }

  ghost predicate Present(m: Store, path: string) {
    RootPath(path) || StripSlash(path) in m
  }

  /** The Overwrite header forbids to overwrite: it is there, and other than T. */
  predicate KeepsDestination(req: Request) {
    req.overwrite.Some? && req.overwrite.value != "T" && req.overwrite.value != "t"
  }

  /** The requests that copy nothing. */
  ghost predicate Refused(m: Store, req: Request) {
    req.destination.None? || req.destination.value == req.path ||
    (KeepsDestination(req) && Present(m, req.destination.value))
  }

  /**
   * The requests whose outcome is stated: they are refused, or neither path is the root, and what
   * is left to copy once the destination is cleared is not read from where it is written.
   */
  ghost predicate Performable(m: Store, req: Request) {
    !Refused(m, req) ==>
      !RootPath(req.path) && !RootPath(req.destination.value) &&
      var src, dst := StripSlash(req.path), StripSlash(req.destination.value);
      Copyable(Cleared(m, dst), src, dst)
  }

  class WebdavServlet {
    const container: Container

    constructor (c: Container)
      ensures container == c
    {
      container := c;
    }

    method Lookup(path: string) returns (ro: OpenStackResourceObj)
      ensures fresh(ro) && ro.container == container && ro.path == path && !ro.ex && !ro.init && !ro.isd
    {
      ro := new OpenStackResourceObj(container, path);
    }

    /** The part the two methods share: everything before the source is copied or moved. */
    method Prepare(req: Request) returns (status: int, ro: OpenStackResourceObj?, ros: OpenStackResourceObj?)
      requires Performable(container.objs, req)
      modifies container
      ensures old(container.trace) <= container.trace
      ensures ro == null <==> ros == null
      ensures ro == null <==> Refused(old(container.objs), req)
      ensures ro == null ==> container.objs == old(container.objs) && container.trace == old(container.trace)
      ensures status == 400 <==> req.destination == None
      ensures status == 403 <==> req.destination == Some(req.path)
      ensures status == 412 <==>
              req.destination.Some? && req.destination.value != req.path &&
              req.overwrite.Some? && req.overwrite.value != "T" && req.overwrite.value != "t" &&
              var d := req.destination.value; d == "" || d == "/" || StripSlash(d) in old(container.objs)
      ensures ro == null <==> status in {400, 403, 412}
      ensures ro != null ==>
                fresh(ro) && fresh(ros) && ro != ros && ro.container == container && ros.container == container &&
                ro.Key() == StripSlash(req.destination.value) &&
                ros.Key() == StripSlash(req.path) && ros.Current() && !ros.IsRoot() &&
                container.objs == Cleared(old(container.objs), ro.Key()) &&
                DeleteTrace(old(container.objs), ro.Key(), container.trace, |old(container.trace)|) &&
                status == if ro.Key() in old(container.objs) then 204 else 201
    {
      if req.destination.None? {
        return SC_BAD_REQUEST, null, null;
      }
      var destinationPath := req.destination.value;
      if destinationPath == req.path {
        return SC_FORBIDDEN, null, null;
      }
      var overwrite := true;
      if req.overwrite.Some? {
        overwrite := req.overwrite.value == "T" || req.overwrite.value == "t";
      }
      ro := Lookup(destinationPath);
      ros := Lookup(req.path);
      var present := ro.Exists();
      if overwrite {
        if present {
          ro.DoDelete();
        }
      } else {
        if present {
          return SC_PRECONDITION_FAILED, null, null;
        }
      }
      status := if present then SC_NO_CONTENT else SC_CREATED;
    }

    /** COPY. */
    method CopyResource(req: Request) returns (status: int)
      requires Performable(container.objs, req)
      modifies container
      // 400, 403 and 412 leave the store alone; 412 keeps a destination that must not be overwritten
      ensures status == 400 <==> req.destination == None
      ensures status == 403 <==> req.destination == Some(req.path)
      ensures status == 412 <==>
              req.destination.Some? && req.destination.value != req.path &&
              req.overwrite.Some? && req.overwrite.value != "T" && req.overwrite.value != "t" &&
              var d := req.destination.value; d == "" || d == "/" || StripSlash(d) in old(container.objs)
      ensures status in {400, 403, 412} ==>
                container.objs == old(container.objs) && container.trace == old(container.trace)
      // every other request clears the destination and puts the source there
      ensures status !in {400, 403, 412} ==>
                var m, src, dst := old(container.objs), StripSlash(req.path), StripSlash(req.destination.value);
                src != "" && container.objs == CopyOf(Cleared(m, dst), src, dst) &&
                (Detached(m, src, dst) ==> RequestRun(m, src, dst, container.trace, |old(container.trace)|)) &&
                status == if dst in m then 204 else 201
    {
      var ro, ros;
      status, ro, ros := Prepare(req);
      if ro == null {
        return;
      }
      ghost var m, e, mid := old(container.objs), container.objs, container.trace;
      ros.DoCopy(ro);
      if Detached(m, ros.Key(), ro.Key()) {
        SourceAfterClear(m, ros.Key(), ro.Key());
        CopyRunSteps(e, ros.Key(), ro.Key(), container.trace, |mid|);
        RequestRunJoin(m, ros.Key(), ro.Key(), mid, container.trace, |old(container.trace)|);
      }
    }

    /** MOVE. */
    method MoveResource(req: Request) returns (status: int)
      requires Performable(container.objs, req)
      modifies container
      // 400, 403 and 412 leave the store alone; 412 keeps a destination that must not be overwritten
      ensures status == 400 <==> req.destination == None
      ensures status == 403 <==> req.destination == Some(req.path)
      ensures status == 412 <==>
              req.destination.Some? && req.destination.value != req.path &&
              req.overwrite.Some? && req.overwrite.value != "T" && req.overwrite.value != "t" &&
              var d := req.destination.value; d == "" || d == "/" || StripSlash(d) in old(container.objs)
      ensures status in {400, 403, 412} ==>
                container.objs == old(container.objs) && container.trace == old(container.trace)
      // every other request clears the destination and puts the source there
      ensures status !in {400, 403, 412} ==>
                var m, src, dst := old(container.objs), StripSlash(req.path), StripSlash(req.destination.value);
                src != "" && container.objs == MoveOf(Cleared(m, dst), src, dst) &&
                (Detached(m, src, dst) ==> RequestRun(m, src, dst, container.trace, |old(container.trace)|)) &&
                status == if dst in m then 204 else 201
    {
      var ro, ros;
      status, ro, ros := Prepare(req);
      if ro == null {
        return;
      }
      ghost var m, mid := old(container.objs), container.trace;
      ros.DoMove(ro);
      if Detached(m, ros.Key(), ro.Key()) {
        RequestRunJoin(m, ros.Key(), ro.Key(), mid, container.trace, |old(container.trace)|);
      }
    }
  }
}
