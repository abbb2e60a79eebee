/** The machine the updater runs on, as far as the updater can see it: a file tree, the service
    control manager and the release server. Any call may fail, for any reason. */
module Machine {
  import opened Versions
  import opened Sorting

  /** A path is its list of components, so that being inside a directory is by component and
      not by string prefix. */
  type Path = seq<Name>

  datatype Node = Dir | File(data: Bytes)

  type Disk = map<Path, Node>

  /** One path lies at, above or below the other. */
  predicate Near(p: Path, q: Path) {
    p <= q || q <= p
  }

  /** Everything at or below a path. */
  function View(d: Disk, p: Path): Disk {
    map q | q in d && p <= q :: d[q]
  }

  function Without(d: Disk, p: Path): Disk {
    map q | q in d && !(p <= q) :: d[q]
  }

  predicate IsFile(d: Disk, p: Path) {
    p in d && d[p].File?
  }

  predicate IsDir(d: Disk, p: Path) {
    p in d && d[p].Dir?
  }

  /** The names of a directory's entries; no entry has an empty name. */
  function Children(d: Disk, p: Path): set<Name> {
    set q | q in d && |q| == |p| + 1 && p <= q && q[|p|] != "" :: q[|p|]
  }

  /** `before` and `after` differ only at `at`, below it, or at directories above it. */
  ghost predicate Framed(before: Disk, after: Disk, at: Path) {
    forall p :: Near(p, at) || View(before, p) == View(after, p)
  }

  lemma ChildrenMembers(d: Disk, p: Path, n: Name)
    ensures n in Children(d, p) <==> n != "" && p + [n] in d
  {
    if p + [n] in d && n != "" {
      assert (p + [n])[|p|] == n;
    }
    if n in Children(d, p) {
      var q :| q in d && |q| == |p| + 1 && p <= q && q[|p|] == n && n != "";
      assert q == p + [n];
    }
  }

  lemma NearTogether(p: Path, at: Path, q: Path)
    requires p <= q && at <= q
    ensures Near(p, at)
  {
    if |p| <= |at| {
      assert p == at[..|p|];
    } else {
      assert at == p[..|at|];
    }
  }

  /** Agreeing at every path that is not near `at` is what a frame needs. */
  lemma FramedByNodes(before: Disk, after: Disk, at: Path)
    requires forall q :: Near(q, at) || (q in before <==> q in after)
    requires forall q | q in before && q in after :: Near(q, at) || before[q] == after[q]
    ensures Framed(before, after, at)
  {
    forall p | !Near(p, at) ensures View(before, p) == View(after, p) {
      forall q | p <= q ensures !Near(q, at) {
        if at <= q {
          NearTogether(p, at, q);
        }
      }
    }
  }

  lemma FramedWithout(d: Disk, p: Path)
    ensures Framed(d, Without(d, p), p)
  {
    FramedByNodes(d, Without(d, p), p);
  }

  /** A change near a path below `at` is a change near `at`. */
  lemma FramedWithin(before: Disk, after: Disk, at: Path, below: Path)
    requires at <= below && Framed(before, after, below)
    ensures Framed(before, after, at)
  {
    forall p | !Near(p, at) ensures View(before, p) == View(after, p) {
      if p <= below {
        NearTogether(p, at, below);
      }
    }
  }

  lemma FramedTwice(a: Disk, b: Disk, c: Disk, at: Path)
    requires Framed(a, b, at) && Framed(b, c, at)
    ensures Framed(a, c, at)
  {
    forall p | !Near(p, at) ensures View(a, p) == View(c, p) {
      assert View(a, p) == View(b, p);
    }
  }

  lemma SiblingsApart(p: Path, n: Name, m: Name)
    requires n != m
    ensures !Near(p + [n], p + [m])
  {
    assert (p + [n])[|p|] != (p + [m])[|p|];
  }

  /** Two trees that look the same at a path agree about every node there. */
  lemma SameView(before: Disk, after: Disk, p: Path, q: Path)
    requires View(before, p) == View(after, p) && p <= q
    ensures q in before <==> q in after
    ensures q in before ==> before[q] == after[q]
  {
    assert q in View(before, p) <==> q in before;
    assert q in View(after, p) <==> q in after;
  }

  /** The same plain file with the same content, or none in either tree. */
  predicate SameFile(before: Disk, after: Disk, p: Path) {
    IsFile(before, p) == IsFile(after, p) && (IsFile(before, p) ==> before[p] == after[p])
  }

  /** States of a service, as the service control manager reports them. */
  datatype ServiceState = Unknown | Stopped | StartPending | StopPending | Running
                        | ContinuePending | PausePending | Paused

  /** What was asked of the service control manager, what was observed, and that a wait for a change
      ran out. */
  datatype Event =
    | Listed(names: seq<Name>)
    | Queried(name: Name, state: ServiceState)
    | StartSent(name: Name)
    | StopSent(name: Name)
    | CreateSent(name: Name, done: bool)
    | DeleteSent(name: Name, done: bool)
    | TimedOut

  class Host {
    const parse: Parser                    // semver.Parse
    const older: Order                     // precedence of two names
    const hash: Bytes -> string            // SHA-256, in hex
    const reported: Bytes -> Option<Name>  // what a binary prints for `version`; None: cannot be run
    const stable: Option<Bytes>            // answer of the stable-release endpoint; None: an HTTP error
    const published: Name -> Option<(Bytes, Bytes)>  // binary and checksum file of a release

    var disk: Disk
    var log: seq<Event>
    var faults: nat                        // how many calls have failed so far

    constructor (parse: Parser, hash: Bytes -> string, reported: Bytes -> Option<Name>,
                 stable: Option<Bytes>, published: Name -> Option<(Bytes, Bytes)>, disk: Disk)
      ensures this.parse == parse && older == ByPrecedence(parse) && WeakOrder(older)
      ensures parse("") == None ==> OrdersNames(parse, older)
      ensures this.hash == hash && this.reported == reported
      ensures this.stable == stable && this.published == published
      ensures this.disk == disk && log == [] && faults == 0
    {
      this.parse, this.older, this.hash, this.reported := parse, ByPrecedence(parse), hash, reported;
      this.stable, this.published, this.disk, this.log, this.faults := stable, published, disk, [], 0;
      PrecedenceIsWeakOrder(parse);
      if parse("") == None { PrecedenceOrdersNames(parse); }
    }

    /** Any call may fail: this is where the machine decides. */
    method Attempt() returns (ok: bool)
      modifies `faults
      ensures faults == old(faults) + if ok then 0 else 1
    {
      ok := *;
      if !ok { faults := faults + 1; }
    }

    method Exists(p: Path) returns (ok: bool, found: bool)
      modifies `faults
      ensures faults == old(faults) + if ok then 0 else 1
      ensures ok ==> found == (p in disk)
    {
      ok := Attempt();
      found := p in disk;
    }

    /** Fails when there is nothing at the path. */
    method StatDir(p: Path) returns (ok: bool, dir: bool)
      modifies `faults
      ensures faults == old(faults) + if ok then 0 else 1
      ensures ok ==> p in disk && dir == IsDir(disk, p)
    {
      if p in disk {
        ok := Attempt();
        dir := disk[p].Dir?;
      } else {
        faults, ok, dir := faults + 1, false, false;
      }
    }

    method ReadFile(p: Path) returns (ok: bool, data: Bytes)
      modifies `faults
      ensures faults == old(faults) + if ok then 0 else 1
      ensures ok ==> IsFile(disk, p) && data == disk[p].data
    {
      if IsFile(disk, p) {
        ok := Attempt();
        data := disk[p].data;
      } else {
        faults, ok, data := faults + 1, false, "";
      }
    }

    method ReadDir(p: Path) returns (ok: bool, names: seq<Name>)
      modifies `faults
      ensures faults == old(faults) + if ok then 0 else 1
      ensures ok ==> IsDir(disk, p)
      ensures Distinct(names)
      ensures ok ==> Names(names) == Children(disk, p)
    {
      names := [];
      if !IsDir(disk, p) {
        faults, ok := faults + 1, false;
        return;
      }
      var rest := Children(disk, p);
      while rest != {}
        invariant Distinct(names) && Names(names) + rest == Children(disk, p)
        invariant Names(names) !! rest
        decreases rest
      {
        var n :| n in rest;
        assert Names(names + [n]) == Names(names) + {n};
        assert n !in Names(names);
        names, rest := names + [n], rest - {n};
      }
      ok := Attempt();
    }

    /** `MkdirAll`: fails when a file is in the way; a failure may leave some of the directories. */
    method MkdirAll(p: Path) returns (ok: bool)
      modifies `disk, `faults
      ensures faults == old(faults) + if ok then 0 else 1
      ensures Framed(old(disk), disk, p)
      ensures forall q | q in old(disk) :: q in disk && disk[q] == old(disk)[q]
      ensures forall q | q in disk :: q in old(disk) || (q <= p && disk[q] == Dir)
      ensures ok ==> IsDir(disk, p)
    {
      ghost var was := disk;
      ok := true;
      for i := 0 to |p| + 1
        invariant ok && faults == old(faults)
        invariant forall q | q in was :: q in disk && disk[q] == was[q]
        invariant forall q | q in disk :: q in was || (q <= p && disk[q] == Dir)
        invariant i > 0 ==> IsDir(disk, p[..i - 1])
      {
        if p[..i] !in disk {
          ok := Attempt();
          if ok { disk := disk[p[..i] := Dir]; }
        } else if disk[p[..i]].File? {
          faults, ok := faults + 1, false;
        }
        if !ok {
          FramedByNodes(was, disk, p);
          return;
        }
      }
      assert p[..|p|] == p;
      FramedByNodes(was, disk, p);
    }

    /** Create or truncate a file and fill it; a failure may leave the file with any content. */
    method WriteFile(p: Path, data: Bytes) returns (ok: bool)
      modifies `disk, `faults
      ensures faults == old(faults) + if ok then 0 else 1
      ensures Framed(old(disk), disk, p)
      ensures ok ==> !IsDir(old(disk), p) && disk == old(disk)[p := File(data)]
      ensures !ok ==> disk == old(disk) || exists left :: disk == old(disk)[p := File(left)]
    {
      ghost var was := disk;
      if p == [] || IsDir(disk, p) || !IsDir(disk, p[..|p| - 1]) {
        faults, ok := faults + 1, false;
      } else {
        ok := Attempt();
        var left: Bytes := *;
        disk := disk[p := File(if ok then data else left)];
      }
      FramedByNodes(was, disk, p);
    }

    /** `RemoveAll`: no error when nothing is there; a failure may have removed any part. */
    method RemoveAll(p: Path) returns (ok: bool)
      modifies `disk, `faults
      ensures faults == old(faults) + if ok then 0 else 1
      ensures Framed(old(disk), disk, p)
      ensures ok ==> disk == Without(old(disk), p)
      ensures Without(disk, p) == Without(old(disk), p)
      ensures forall q | q in disk :: q in old(disk) && disk[q] == old(disk)[q]
    {
      ghost var was := disk;
      ok := Attempt();
      if ok {
        disk := Without(disk, p);
      } else {
        var left: set<Path> := *;
        disk := map q | q in disk && (p <= q ==> q in left) :: disk[q];
      }
      FramedByNodes(was, disk, p);
    }

    /** `Remove`: fails on a missing path and on a directory that is not empty. */
    method Remove(p: Path) returns (ok: bool)
      modifies `disk, `faults
      ensures faults == old(faults) + if ok then 0 else 1
      ensures Framed(old(disk), disk, p)
      ensures disk == if ok then Without(old(disk), p) else old(disk)
      ensures ok ==> p in old(disk) && forall q | q in old(disk) && p <= q :: q == p
    {
      ghost var was := disk;
      if p in disk && (forall q | q in disk && p <= q :: q == p) {
        ok := Attempt();
        if ok { disk := Without(disk, p); }
      } else {
        faults, ok := faults + 1, false;
      }
      FramedByNodes(was, disk, p);
    }

    /** Open the source, create or truncate the destination, then copy what the source holds by
        then: a file copied onto itself is lost. That there is no file at the source is an error,
        but not a failing call. */
    method CopyFile(dst: Path, src: Path) returns (ok: bool)
      modifies `disk, `faults
      ensures old(faults) <= faults <= old(faults) + 1 && (ok ==> faults == old(faults))
      ensures !ok && faults == old(faults) ==> !IsFile(old(disk), src)
      ensures src !in old(disk) ==> !ok && disk == old(disk)
      ensures Framed(old(disk), disk, dst)
      ensures ok ==> IsFile(old(disk), src)
                     && disk == old(disk)[dst := if dst == src then File("") else old(disk)[src]]
      ensures !ok ==> disk == old(disk) || exists left :: disk == old(disk)[dst := File(left)]
    {
      ghost var was := disk;
      if src !in disk { return false; }
      ok := Attempt();  // open the source
      if !ok { return; }
      ok := WriteFile(dst, "");
      if !ok { return; }
      ghost var mid := disk;
      ok := disk[src].File?;
      if ok {
        ok := WriteFile(dst, disk[src].data);
        FramedTwice(was, mid, disk, dst);
        assert forall left :: mid[dst := File(left)] == was[dst := File(left)];
      }
    }

    method DirExists(p: Path) returns (ok: bool, found: bool)
      modifies `faults
      ensures faults == old(faults) + if ok then 0 else 1
      ensures ok ==> found == IsDir(disk, p)
    {
      ok := Attempt();
      found := IsDir(disk, p);
    }

    /** Ask the stable-release endpoint; an answer with an error status is None. */
    method FetchStable() returns (ok: bool, answer: Option<Bytes>)
      modifies `faults
      ensures faults == old(faults) + if ok then 0 else 1
      ensures ok ==> answer == stable
    {
      ok := Attempt();
      answer := stable;
    }

    /** Download the binary or the checksum file of a release. */
    method FetchRelease(version: Name, checksum: bool) returns (ok: bool, data: Bytes)
      modifies `faults
      ensures faults == old(faults) + if ok then 0 else 1
      ensures ok ==> published(version).Some?
                     && data == if checksum then published(version).value.1 else published(version).value.0
    {
      match published(version)
      case None => faults, ok, data := faults + 1, false, "";
      case Some(files) =>
        ok := Attempt();
        data := if checksum then files.1 else files.0;
    }

    /** Run a binary and read the version it prints. */
    method RunVersion(p: Path) returns (ok: bool, version: Name)
      modifies `faults
      ensures faults == old(faults) + if ok then 0 else 1
      ensures ok ==> IsFile(disk, p) && reported(disk[p].data) == Some(version)
    {
      if IsFile(disk, p) && reported(disk[p].data).Some? {
        ok := Attempt();
        version := reported(disk[p].data).value;
      } else {
        faults, ok, version := faults + 1, false, "";
      }
    }

    /** The services change on their own between any two calls, so what a listing or a query
        shows is arbitrary; the log remembers what was shown and what was sent. */
    method ListServices() returns (ok: bool, names: seq<Name>)
      modifies `log, `faults
      ensures faults == old(faults) + if ok then 0 else 1
      ensures log == if ok then old(log) + [Listed(names)] else old(log)
    {
      ok := Attempt();
      names := *;
      if ok { log := log + [Listed(names)]; }
    }

    method Query(name: Name) returns (ok: bool, state: ServiceState)
      modifies `log, `faults
      ensures faults == old(faults) + if ok then 0 else 1
      ensures log == if ok then old(log) + [Queried(name, state)] else old(log)
    {
      ok := Attempt();
      state := *;
      if ok { log := log + [Queried(name, state)]; }
    }

    /** The `select` after a command: either the ticker fires, or the time is up. */
    method AwaitTick() returns (ticked: bool)
      modifies `log
      ensures log == if ticked then old(log) else old(log) + [TimedOut]
    {
      ticked := *;
      if !ticked { log := log + [TimedOut]; }
    }

    method SendStart(name: Name) returns (ok: bool)
      modifies `log, `faults
      ensures faults == old(faults) + if ok then 0 else 1
      ensures log == old(log) + [StartSent(name)]
    {
      ok := Attempt();
      log := log + [StartSent(name)];
    }

    method SendStop(name: Name) returns (ok: bool)
      modifies `log, `faults
      ensures faults == old(faults) + if ok then 0 else 1
      ensures log == old(log) + [StopSent(name)]
    {
      ok := Attempt();
      log := log + [StopSent(name)];
    }

    method CreateService(name: Name) returns (ok: bool)
      modifies `log, `faults
      ensures faults == old(faults) + if ok then 0 else 1
      ensures log == old(log) + [CreateSent(name, ok)]
    {
      ok := Attempt();
      log := log + [CreateSent(name, ok)];
    }

    method DeleteService(name: Name) returns (ok: bool)
      modifies `log, `faults
      ensures faults == old(faults) + if ok then 0 else 1
      ensures log == old(log) + [DeleteSent(name, ok)]
    {
      ok := Attempt();
      log := log + [DeleteSent(name, ok)];
    }
  }
}
