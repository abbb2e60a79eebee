/** The guest agent updater: it installs the newest cached release of the agent as a service and
    falls back to the release before it when that fails. */
module Updater {
  import opened Versions
  import opened Sorting
  import Text
  import opened Machine
  import opened Filer
  import opened Eviction
  import opened Services
  import opened InstallLog
  import opened DryRun

  /** `C:\Program Files\Yandex.Cloud\Guest Agent` */
  const AGENT_DIR: Path := ["C:", "Program Files", "Yandex.Cloud", "Guest Agent"]

  /** `C:\Program Files\Yandex.Cloud\Guest Agent Updater\Local Repository` */
  const VERSION_LOCAL_REPOSITORY: Path :=
    ["C:", "Program Files", "Yandex.Cloud", "Guest Agent Updater", "Local Repository"]

  /** Although the agent directory's name is a string prefix of the repository's, by components
      neither lies inside the other. */
  lemma AgentDirApartFromRepository()
    ensures AGENT_DIR[3] <= VERSION_LOCAL_REPOSITORY[3]
    ensures !Near(AGENT_DIR, VERSION_LOCAL_REPOSITORY)
  {
    assert AGENT_DIR[3] == VERSION_LOCAL_REPOSITORY[3][..11];
    assert |AGENT_DIR[3]| != |VERSION_LOCAL_REPOSITORY[3]|;
  }

  /** `before` and `after` differ only near one of two paths. */
  ghost predicate FramedTwo(before: Disk, after: Disk, a: Path, b: Path) {
    forall p :: Near(p, a) || Near(p, b) || View(before, p) == View(after, p)
  }

  /** What one `Update` did; the source only logs it. */
  datatype Report = Report(
    downloaded: bool,          // downloadVersion was reached
    newest: Name,              // answer of getRepoLatest, "" before it is asked
    tried: bool,               // install(newest) was called
    rollback: Option<Name>)    // install was called again, for this version
  {
    /** The version the last install was called for. */
    function Last(): Name {
      match rollback case Some(v) => v case None => newest
    }
  }

  class GuestAgent {
    const host: Host
    const repo: LocalFiler
    const services: Manager
    const agentDir: Path
    const tempDir: Path

    constructor (host: Host, agentDir: Path, executable: Name, repositoryRoot: Path, tempDir: Path)
      requires executable != "" && OrdersNames(host.parse, host.older)
      requires !Near(agentDir, repositoryRoot) && !Near(tempDir, repositoryRoot) && !Near(tempDir, agentDir)
      ensures this.host == host && this.agentDir == agentDir && this.tempDir == tempDir
      ensures fresh(repo) && fresh(repo.versions) && fresh(services)
      ensures repo.root == repositoryRoot && repo.filename == executable && repo.versions.Length == 0
      ensures Valid()
    {
      this.host, this.agentDir, this.tempDir := host, agentDir, tempDir;
      repo := new LocalFiler(host, repositoryRoot, executable);
      services := new Manager(host);
    }

    ghost predicate Valid()
      reads repo, repo.versions
    {
      && repo.Valid() && repo.host == host && services.host == host
      && !Near(agentDir, repo.root) && !Near(tempDir, repo.root) && !Near(tempDir, agentDir)
    }

    /** Where the agent's binary is installed. */
    function AgentFile(): Path {
      agentDir + [repo.filename]
    }

    /** The version the installed binary reports, "" when none is installed. */
    ghost function Installed(d: Disk): Name {
      if IsFile(d, AgentFile()) then
        match host.reported(d[AgentFile()].data) case Some(v) => v case None => ""
      else ""
    }

    /** The latest release, "" when the endpoint answers with an error or an unparsable text. */
    ghost function Latest(): Name {
      match host.stable
      case None => ""
      case Some(body) => if host.parse(Text.Trim(body, '\n')).Some? then Text.Trim(body, '\n') else ""
    }

    /** The installed version is what the file of the executable's name in the agent's directory says
        when it is run. */
    lemma InstalledSays(d: Disk, v: Name)
      requires v != ""
      ensures Installed(d) == v <==>
                && agentDir + [repo.filename] in d && d[agentDir + [repo.filename]].File?
                && host.reported(d[agentDir + [repo.filename]].data) == Some(v)
    {
    }

    /** A version is the latest release iff the endpoint's answer is that version between any number
        of line ends, and it parses. */
    lemma LatestSays(v: Name)
      requires v != "" && Text.Bare(v, '\n')
      ensures Latest() == v <==>
                host.parse(v).Some? && host.stable.Some? && Holds(host.stable.value, v)
    {
      if host.stable.Some? { Text.TrimTakesEnds(host.stable.value, '\n', v); }
    }

    ghost function IndexNames(): set<Name>
      reads repo, repo.versions
    {
      Names(repo.Index())
    }

    lemma SameAgentFile(before: Disk, after: Disk)
      requires View(before, agentDir) == View(after, agentDir)
      ensures Installed(before) == Installed(after)
    {
      SameView(before, after, agentDir, AgentFile());
    }

    method GetInstalledVersion() returns (ok: bool, version: Name)
      modifies host`faults
      ensures host.faults == old(host.faults) + if ok then 0 else 1
      ensures ok ==> version == Installed(host.disk)
    {
      version := "";
      ok := host.Attempt();  // the context is not cancelled
      if !ok { return; }
      var found;
      ok, found := host.Exists(AgentFile());
      if !ok || !found { return; }
      ok, version := host.RunVersion(AgentFile());
    }

    method GetLatest() returns (ok: bool, version: Name)
      modifies host`faults
      ensures host.faults == old(host.faults) + if ok then 0 else 1
      ensures ok ==> version == Latest()
    {
      version := "";
      ok := host.Attempt();  // the context is not cancelled
      if !ok { return; }
      var answer;
      ok, answer := host.FetchStable();
      if !ok || answer.None? { return; }
      var v := Text.Trim(answer.value, '\n');
      if host.parse(v).Some? {
        version := v;
      }
    }

    /** Sorts the repository's own index in place, newest first, and takes the head. */
    method GetRepoLatest() returns (version: Name)
      requires Valid()
      modifies repo.versions
      ensures Valid() && multiset(repo.Index()) == multiset(old(repo.Index()))
      ensures IndexNames() == old(IndexNames()) && IsNewest(host.older, IndexNames(), version)
    {
      var versions := repo.List();
      if versions.Length == 0 { return ""; }
      ghost var was := versions[..];
      var newer: Order := (a, b) => host.older(b, a);
      assert WeakOrder(newer);
      if versions.Length > 1 {
        SortSlice(versions, newer);
      }
      PermutedDistinct(was, versions[..]);
      PermutedMembers(was, versions[..]);
      version := versions[0];
      assert version in IndexNames();
      forall m | m in IndexNames() ensures !host.older(version, m) {
        var i :| 0 <= i < versions.Length && versions[i] == m;
        assert i > 0 ==> !newer(versions[i], versions[0]);
      }
    }

    /** Sorts the repository's own index in place, oldest first, and takes the name before `to`. */
    method GetRepoPrevious(to: Name) returns (version: Name)
      requires Valid()
      modifies repo.versions
      ensures Valid() && multiset(repo.Index()) == multiset(old(repo.Index()))
      ensures IndexNames() == old(IndexNames())
      ensures version != "" ==> IsPrevious(IndexNames(), to, version)
      ensures version == "" ==> NoPrevious(IndexNames(), to)
    {
      version := "";
      var versions := repo.List();
      if versions.Length > 1 {
        ghost var was := versions[..];
        SortSlice(versions, host.older);
        PermutedDistinct(was, versions[..]);
        PermutedMembers(was, versions[..]);
        for i := 0 to versions.Length
          invariant forall j | 0 < j < i :: versions[j] != to
        {
          if versions[i] == to && i > 0 {
            ghost var index := versions[..];
            BeforeInOrder(index, i);
            return versions[i - 1];
          }
        }
        forall m | m in IndexNames() && to in IndexNames() ensures !host.older(m, to) {
          var k :| 0 <= k < versions.Length && versions[k] == m;
          assert versions[0] == to;
        }
      } else {
        forall m | m in IndexNames() && to in IndexNames() ensures !host.older(m, to) {
          assert |repo.Index()| == 1 && m == repo.Index()[0] == to;
        }
      }
    }

    /** A different name, not newer than `to`, and at least as new as everything older than `to`. */
    ghost predicate IsPrevious(names: set<Name>, to: Name, version: Name) {
      && to in names && version in names && version != to && !host.older(to, version)
      && forall m | m in names && host.older(m, to) :: !host.older(version, m)
    }

    /** Why there is no version to go back to: `to` is absent, nothing is older, or the name before it
        is the empty one, which reads like none. */
    ghost predicate NoPrevious(names: set<Name>, to: Name) {
      to !in names || (forall m | m in names :: !host.older(m, to)) || IsPrevious(names, to, "")
    }

    lemma BeforeInOrder(index: seq<Name>, i: nat)
      requires WeakOrder(host.older) && Ordered(host.older, index) && Distinct(index) && 0 < i < |index|
      ensures IsPrevious(Names(index), index[i], index[i - 1])
    {
      assert index[i] in Names(index) && index[i - 1] in Names(index);
      forall m | m in Names(index) && host.older(m, index[i]) ensures !host.older(index[i - 1], m) {
        var k :| 0 <= k < |index| && index[k] == m;
        assert k < i;
      }
    }

    /** The dry run: only looks, apart from reordering the shared index. */
    method Check() returns (ok: bool, state: int)
      requires Valid()
      modifies repo.versions, host`faults
      ensures Valid() && host.faults >= old(host.faults)
      ensures multiset(repo.Index()) == multiset(old(repo.Index())) && IndexNames() == old(IndexNames())
      ensures ok ==> Installed(host.disk) == "" || host.parse(Installed(host.disk)).Some?
      ensures ok ==> exists newest :: IsNewest(host.older, IndexNames(), newest)
                       && state == Answer(host.older, Installed(host.disk), Latest(), IndexNames(), newest)
      ensures !ok && host.faults == old(host.faults) ==>
                Installed(host.disk) != "" && host.parse(Installed(host.disk)).None?
    {
      state := UNKNOWN;
      ok := host.Attempt();  // the context is not cancelled
      if !ok { return; }
      var iv, lv;
      ok, iv := GetInstalledVersion();
      if !ok { return; }
      var rv := GetRepoLatest();
      ok, lv := GetLatest();
      if !ok { return; }
      ok := iv == "" || host.parse(iv).Some?;
      state := Compose(iv, lv, rv);
    }

    /** The sum that `Check` builds up part by part. */
    method Compose(iv: Name, lv: Name, rv: Name) returns (state: int)
      ensures state == Answer(host.older, iv, lv, IndexNames(), rv)
    {
      state := NOOP;
      if lv != "" {
        var inRepo := repo.Get(lv);
        if inRepo.None? { state := state + DOWNLOAD; }
      }
      if iv == "" { return state + INSTALL; }
      if host.older(iv, lv) || host.older(iv, rv) { state := state + UPDATE; }
    }

    method EnsureService() returns (ok: bool)
      requires services.host == host
      modifies host`log, host`faults
      ensures host.faults >= old(host.faults)
      ensures Careful(old(host.log)) ==> Careful(host.log)
      ensures old(host.log) <= host.log
      ensures ok ==> Ensured(old(host.log), host.log, SERVICE_NAME)
      ensures !ok && host.faults == old(host.faults) ==> CreationBalks(old(host.log), host.log, SERVICE_NAME)
      ensures States(host.log, SERVICE_NAME) == States(old(host.log), SERVICE_NAME)
    {
      var exist;
      ok, exist := services.IsExist(SERVICE_NAME);
      if !ok || exist { return; }
      ok := services.Create(SERVICE_NAME);
    }

    method EnsureNoService() returns (ok: bool)
      requires services.host == host
      modifies host`log, host`faults
      ensures host.faults >= old(host.faults)
      ensures Careful(old(host.log)) ==> Careful(host.log)
      ensures old(host.log) <= host.log
      ensures ok ==> Removed(old(host.log), host.log, SERVICE_NAME)
      ensures !ok && host.faults == old(host.faults) ==> RemovalBalks(old(host.log), host.log, SERVICE_NAME)
      ensures !ok ==> host.log == old(host.log) || NotDeleted(old(host.log), host.log, SERVICE_NAME)
    {
      var exist, stopped;
      ok, exist := services.IsExist(SERVICE_NAME);
      if !ok || !exist { return; }
      ok, stopped := services.IsStopped(SERVICE_NAME);
      if !ok { return; }
      if !stopped {
        ok := services.Stop(SERVICE_NAME);
        if !ok { return; }
      }
      ok := services.Delete(SERVICE_NAME);
    }

    /** Removes the service, then the agent directory's entries one by one, then the directory. */
    method Remove() returns (ok: bool)
      requires services.host == host
      modifies host`disk, host`log, host`faults
      ensures host.faults >= old(host.faults)
      ensures Careful(old(host.log)) ==> Careful(host.log)
      ensures Framed(old(host.disk), host.disk, agentDir)
      ensures old(host.log) <= host.log
      ensures ok ==> Removed(old(host.log), host.log, SERVICE_NAME)
      ensures !ok && host.faults == old(host.faults) ==> RemovalBalks(old(host.log), host.log, SERVICE_NAME)
      ensures !ok ==> !Reinstalled(old(host.log), host.log)
      ensures !ok && host.faults == old(host.faults) ==> host.disk == old(host.disk)
      ensures IsFile(host.disk, agentDir) ==> IsFile(old(host.disk), agentDir)
      ensures ok ==> host.disk == if IsDir(old(host.disk), agentDir) then Without(old(host.disk), agentDir) else old(host.disk)
    {
      NotRunningNotReinstalled(host.log, host.log);
      ok := host.Attempt();  // the context is not cancelled
      if !ok { return; }
      ok := EnsureNoService();
      if !ok {
        if host.log != old(host.log) { NotDeletedNotReinstalled(old(host.log), host.log); }
        return;
      }
      RemovedNotReinstalled(old(host.log), host.log);
      ok := RemoveDirectory();
    }

    method RemoveDirectory() returns (ok: bool)
      modifies host`disk, host`faults
      ensures host.faults >= old(host.faults)
      ensures !ok ==> host.faults > old(host.faults)
      ensures IsFile(host.disk, agentDir) ==> IsFile(old(host.disk), agentDir)
      ensures Framed(old(host.disk), host.disk, agentDir)
      ensures ok ==> host.disk == if IsDir(old(host.disk), agentDir) then Without(old(host.disk), agentDir) else old(host.disk)
    {
      var exist, names;
      ok, exist := host.DirExists(agentDir);
      if !ok || !exist { return; }
      ok, names := host.ReadDir(agentDir);
      if !ok { return; }
      ghost var was := host.disk;
      for i := 0 to |names|
        invariant host.faults >= old(host.faults)
        invariant Framed(was, host.disk, agentDir)
        invariant Without(host.disk, agentDir) == Without(was, agentDir)
        invariant IsFile(host.disk, agentDir) ==> IsFile(was, agentDir)
      {
        ghost var mid := host.disk;
        ok := host.RemoveAll(agentDir + [names[i]]);
        FramedWithin(mid, host.disk, agentDir, agentDir + [names[i]]);
        FramedTwice(was, mid, host.disk, agentDir);
        WithoutBelow(mid, host.disk, agentDir, agentDir + [names[i]]);
        if !ok { return; }
      }
      ghost var mid := host.disk;
      ok := host.Remove(agentDir);
      FramedTwice(was, mid, host.disk, agentDir);
    }

    lemma WithoutBelow(before: Disk, after: Disk, at: Path, below: Path)
      requires at <= below && Without(after, below) == Without(before, below)
      ensures Without(after, at) == Without(before, at)
    {
      forall q | !(at <= q)
        ensures q in after <==> q in before
        ensures q in after ==> after[q] == before[q]
      {
        PrefixTransitive(at, below, q);
        assert q in Without(after, below) <==> q in after;
        assert q in Without(before, below) <==> q in before;
      }
    }

    static lemma PrefixTransitive(a: Path, b: Path, c: Path)
      ensures a <= b && b <= c ==> a <= c
    {
      if a <= b && b <= c {
        assert a == b[..|a|] == c[..|a|];
      }
    }

    /** Whatever fails on the way, a change near the agent directory leaves the repository alone. */
    lemma RepositoryUntouched(before: Disk, after: Disk, p: Path)
      requires Valid() && Framed(before, after, agentDir) && repo.root <= p
      ensures View(before, p) == View(after, p)
    {
      Apart(agentDir, repo.root, agentDir, p);
    }

    method EnsureDirectory() returns (ok: bool)
      modifies host`disk, host`faults
      ensures host.faults >= old(host.faults)
      ensures Framed(old(host.disk), host.disk, agentDir)
      ensures ok ==> IsDir(host.disk, agentDir)
      ensures !ok && host.faults == old(host.faults) ==> IsFile(old(host.disk), agentDir)
      ensures !ok && host.faults == old(host.faults) ==> host.disk == old(host.disk)
      ensures forall q | q in old(host.disk) :: q in host.disk && host.disk[q] == old(host.disk)[q]
      ensures forall q | q in host.disk :: q in old(host.disk) || (q <= agentDir && host.disk[q] == Dir)
    {
      var found, dir;
      ok, found := host.Exists(agentDir);
      if !ok { return; }
      if found {
        ok, dir := host.StatDir(agentDir);
        ok := ok && dir;
        return;
      }
      ok := host.MkdirAll(agentDir);
    }

    /** The agent directory holds the binary of version `v` and nothing else. */
    ghost predicate CleanCopy(d: Disk, v: Name) {
      && IsFile(d, repo.FileOf(v))
      && View(d, agentDir) == map[agentDir := Dir, AgentFile() := d[repo.FileOf(v)]]
    }

    /** The middle of `install`: the agent directory, then the binary. */
    method PlaceBinary(p: Path) returns (ok: bool)
      requires Valid() && repo.root <= p
      modifies host`disk, host`faults
      ensures host.faults >= old(host.faults)
      ensures Framed(old(host.disk), host.disk, agentDir)
      ensures ok ==> IsFile(host.disk, p) && IsFile(host.disk, AgentFile()) && host.disk[AgentFile()] == host.disk[p]
      ensures IsFile(host.disk, agentDir) ==> IsFile(old(host.disk), agentDir)
      ensures !ok && host.faults == old(host.faults) ==> IsFile(old(host.disk), agentDir) || !IsFile(old(host.disk), p)
      ensures ok && View(old(host.disk), agentDir) == map[] ==>
                View(host.disk, agentDir) == map[agentDir := Dir, AgentFile() := host.disk[p]]
      ensures host.faults == old(host.faults) && p !in old(host.disk) && View(old(host.disk), agentDir) == map[] ==>
                !ok && View(host.disk, agentDir) == map[agentDir := Dir]
    {
      ok := EnsureDirectory();
      if !ok { return; }
      ghost var d := host.disk;
      assert p != AgentFile() by {
        if p == AgentFile() { NearTogether(agentDir, repo.root, p); }
      }
      RepositoryUntouched(old(host.disk), d, repo.root);
      SameView(old(host.disk), d, repo.root, p);
      ok := host.CopyFile(AgentFile(), p);
      FramedWithin(d, host.disk, agentDir, AgentFile());
      FramedTwice(old(host.disk), d, host.disk, agentDir);
      if View(old(host.disk), agentDir) == map[] {
        forall q | q in d && agentDir <= q ensures q == agentDir && d[q] == Dir {
          assert q !in View(old(host.disk), agentDir);
        }
      }
    }

    method Start() returns (ok: bool)
      requires services.host == host
      modifies host`log, host`faults
      ensures host.faults >= old(host.faults)
      ensures Careful(old(host.log)) ==> Careful(host.log)
      ensures old(host.log) <= host.log
      ensures ok ==> Started(old(host.log), host.log, SERVICE_NAME)
      ensures !ok && host.faults == old(host.faults) ==> StartBalks(old(host.log), host.log, SERVICE_NAME)
      ensures !ok ==> NotSeenRunning(old(host.log), host.log, SERVICE_NAME)
    {
      ok := services.Start(SERVICE_NAME);
    }

    method Stop() returns (ok: bool)
      requires services.host == host
      modifies host`log, host`faults
      ensures host.faults >= old(host.faults)
      ensures Careful(old(host.log)) ==> Careful(host.log)
      ensures ok ==> HasStopped(old(host.log), host.log, SERVICE_NAME)
      ensures !ok && host.faults == old(host.faults) ==> StopBalks(old(host.log), host.log, SERVICE_NAME)
    {
      ok := host.Attempt();  // the context is not cancelled
      if !ok { return; }
      ok := services.Stop(SERVICE_NAME);
    }

    lemma FileInRoot(v: Name)
      ensures repo.root <= repo.FileOf(v)
    {
    }

    /** A clean installation of one version of the repository. It succeeds exactly when the service
        log shows the service removed, created and seen running; without a failing call it fails
        only because the version has no file or because the service did not play along. */
    method Install(v: Name) returns (ok: bool)
      requires Valid()
      modifies host`disk, host`log, host`faults
      ensures host.faults >= old(host.faults)
      ensures Careful(old(host.log)) ==> Careful(host.log)
      ensures Framed(old(host.disk), host.disk, agentDir)
      ensures v !in IndexNames() ==> !ok && host.disk == old(host.disk) && host.log == old(host.log)
      ensures old(host.log) <= host.log
      ensures IsFile(host.disk, agentDir) ==> IsFile(old(host.disk), agentDir)
      ensures v in IndexNames() ==>
                InstallLogged(old(host.log), host.log, ok, old(host.faults), host.faults, Installable(old(host.disk), v))
      ensures ok ==> IsFile(host.disk, repo.FileOf(v)) && IsFile(host.disk, AgentFile())
      ensures ok ==> host.disk[AgentFile()] == host.disk[repo.FileOf(v)]
      ensures ok && IsDir(old(host.disk), agentDir) ==> CleanCopy(host.disk, v)
      ensures host.faults == old(host.faults) && v in IndexNames() && Installable(old(host.disk), v) ==>
                host.disk == old(host.disk) || Placed(host.disk, v)
      ensures host.faults == old(host.faults) && v in IndexNames() && FileLost(old(host.disk), v) ==>
                !ok && AgentLost(old(host.disk), host.disk, old(host.log), host.log)
    {
      var p := repo.Get(v);
      if p.None? { return false; }
      ok := Remove();
      if !ok { return; }
      ghost var d1, removed := host.disk, host.log;
      FileInRoot(v);
      RepositoryUntouched(old(host.disk), d1, repo.root);
      SameView(old(host.disk), d1, repo.root, p.value);
      assert IsDir(old(host.disk), agentDir) ==> View(d1, agentDir) == map[];
      ok := PlaceBinary(p.value);
      FramedTwice(old(host.disk), d1, host.disk, agentDir);
      if !ok {
        RemovedNotReinstalled(old(host.log), host.log);
        return;
      }
      ok := CreateAndStart();
      InstalledOrNot(old(host.log), removed, host.log, ok);
    }

    /** What an installation needs of the disk: the version's file, and no file where the agent's
        directory is to be. */
    ghost predicate Installable(d: Disk, v: Name) {
      !IsFile(d, agentDir) && IsFile(d, repo.FileOf(v))
    }

    /** The version has no file; the agent directory is one or is not there. */
    ghost predicate FileLost(d: Disk, v: Name) {
      repo.FileOf(v) !in d && (IsDir(d, agentDir) || View(d, agentDir) == map[])
    }

    /** What a failed installation of a version without a file leaves: everything as it was, because
        the service would not go; or no service and an empty agent directory. */
    ghost predicate AgentLost(before: Disk, after: Disk, log: seq<Event>, logAfter: seq<Event>) {
      || (after == before && RemovalBalks(log, logAfter, SERVICE_NAME))
      || (Removed(log, logAfter, SERVICE_NAME) && View(after, agentDir) == map[agentDir := Dir])
    }

    /** The end of `install`: the service, then its start. */
    method CreateAndStart() returns (ok: bool)
      requires services.host == host
      modifies host`log, host`faults
      ensures host.faults >= old(host.faults) && old(host.log) <= host.log
      ensures Careful(old(host.log)) ==> Careful(host.log)
      ensures ok ==> CreatedAndStarted(old(host.log), host.log)
      ensures !ok && host.faults == old(host.faults) ==> NotReinstalled(old(host.log), host.log)
      ensures !ok ==> NotSeenRunning(old(host.log), host.log, SERVICE_NAME)
    {
      ok := EnsureService();
      if !ok { return; }
      ghost var ensured := host.log;
      ok := Start();
      assert ok ==> Started(ensured, host.log, SERVICE_NAME);
    }

    /** The temporary file of one download; the identifier is a fresh random one. */
    function TempFile(uuid: string): Path {
      tempDir + [uuid + ".exe"]
    }

    /** `downloadVersion`: the binary and its checksum file, into temporary files. */
    method DownloadVersion(v: Name, uuid: string) returns (ok: bool, path: Path)
      modifies host`disk, host`faults
      ensures host.faults >= old(host.faults)
      ensures host.faults == old(host.faults) ==> ok
      ensures path == TempFile(uuid)
      ensures Framed(old(host.disk), host.disk, tempDir)
      ensures ok ==> host.published(v).Some?
                     && host.disk == old(host.disk)[path := File(host.published(v).value.0)]
                                                   [ChecksumOf(path) := File(host.published(v).value.1)]
    {
      path := TempFile(uuid);
      var data;
      ok := host.Attempt();  // the context is not cancelled, and a random identifier was drawn
      if !ok { return; }
      ghost var was := host.disk;
      ok := WriteTemp(was, path, "");
      if !ok { return; }
      ok, data := host.FetchRelease(v, false);
      if !ok { return; }
      ok := WriteTemp(was, path, data);
      if !ok { return; }
      ok := WriteTemp(was, ChecksumOf(path), "");
      if ok {
        ok, data := host.FetchRelease(v, true);
      }
      if ok {
        ok := WriteTemp(was, ChecksumOf(path), data);
      }
      if !ok {
        ghost var mid := host.disk;
        var removed := host.RemoveAll(path);
        FramedWithin(mid, host.disk, tempDir, path);
        FramedTwice(was, mid, host.disk, tempDir);
      }
    }

    method WriteTemp(ghost was: Disk, path: Path, data: Bytes) returns (ok: bool)
      requires tempDir <= path && Framed(was, host.disk, tempDir)
      modifies host`disk, host`faults
      ensures host.faults == old(host.faults) + if ok then 0 else 1
      ensures Framed(was, host.disk, tempDir)
      ensures ok ==> host.disk == old(host.disk)[path := File(data)]
    {
      ok := host.WriteFile(path, data);
      FramedWithin(old(host.disk), host.disk, tempDir, path);
      FramedTwice(was, old(host.disk), host.disk, tempDir);
    }

    /** The files published for a release agree, so that they can be added. */
    ghost predicate GoodRelease(v: Name) {
      && host.published(v).Some?
      && host.hash(host.published(v).value.0) == Text.Trim(host.published(v).value.1, '\n')
    }

    lemma TempOutside(name: Name, v: Name)
      requires Valid()
      ensures !(repo.root <= tempDir + [name])
      ensures !Near(tempDir + [name], JoinPath(repo.root, v))
    {
      var t, at := tempDir + [name], JoinPath(repo.root, v);
      assert t[..|tempDir|] == tempDir && at[..|repo.root|] == repo.root;
      PrefixTransitive(tempDir, t, at);
      PrefixTransitive(repo.root, at, t);
      if repo.root <= t {
        NearTogether(repo.root, tempDir, t);
      }
      if tempDir <= at {
        NearTogether(tempDir, repo.root, at);
      }
    }

    /** Delete the two files of a download. */
    method DeleteTemp(path: Path) returns (ok: bool)
      requires path != [] && tempDir <= path && tempDir <= ChecksumOf(path)
      modifies host`disk, host`faults
      ensures host.faults == old(host.faults) + if ok then 0 else 1
      ensures Framed(old(host.disk), host.disk, tempDir)
      ensures ok ==> host.disk == Without(Without(old(host.disk), path), ChecksumOf(path))
    {
      ghost var was := host.disk;
      ok := host.Remove(path);
      ghost var mid := host.disk;
      FramedWithin(was, mid, tempDir, path);
      if !ok { return; }
      ok := host.Remove(ChecksumOf(path));
      FramedWithin(mid, host.disk, tempDir, ChecksumOf(path));
      FramedTwice(was, mid, host.disk, tempDir);
    }

    lemma FramedByTwo(before: Disk, mid: Disk, after: Disk, a: Path, b: Path)
      requires Framed(before, mid, a) && Framed(mid, after, b)
      ensures FramedTwo(before, after, a, b) && FramedTwo(before, after, b, a)
    {
      forall p | !Near(p, a) && !Near(p, b) ensures View(before, p) == View(after, p) {
        assert View(before, p) == View(mid, p);
      }
    }

    /** `before` with the two temporary files of a download gone is `after`, except near `at`. */
    ghost predicate TempFilesGone(before: Disk, after: Disk, path: Path, at: Path)
      requires path != []
    {
      forall q :: Near(q, at) || View(after, q) == View(Without(Without(before, path), ChecksumOf(path)), q)
    }

    lemma TempFilesGoneBy(before: Disk, mid: Disk, path: Path, at: Path)
      requires path != [] && Framed(before, mid, at)
      ensures TempFilesGone(before, Without(Without(mid, path), ChecksumOf(path)), path, at)
    {
      forall q | !Near(q, at)
        ensures View(Without(Without(mid, path), ChecksumOf(path)), q) == View(Without(Without(before, path), ChecksumOf(path)), q)
      {
        forall r | q <= r ensures (r in mid <==> r in before) && (r in mid ==> mid[r] == before[r]) {
          SameView(before, mid, q, r);
        }
      }
    }

    /** The end of `ensureLatestAdded`: add the downloaded pair, then delete the temporary files. */
    method AddDownloaded(uuid: string, v: Name) returns (ok: bool)
      requires Valid()
      modifies repo`versions, host`disk, host`faults
      ensures Valid() && (fresh(repo.versions) || repo.versions == old(repo.versions))
      ensures host.faults >= old(host.faults)
      ensures FramedTwo(old(host.disk), host.disk, JoinPath(repo.root, v), tempDir)
      ensures IndexNames() == old(IndexNames()) || IndexNames() == old(IndexNames()) + {v}
      ensures ok ==> IndexNames() == old(IndexNames()) + {v}
      ensures ok ==> repo.GoodPair(old(host.disk), TempFile(uuid))
      ensures ok ==> IsFile(host.disk, repo.FileOf(v)) && host.disk[repo.FileOf(v)] == old(host.disk)[TempFile(uuid)]
      ensures ok ==> TempFilesGone(old(host.disk), host.disk, TempFile(uuid), JoinPath(repo.root, v))
      ensures repo.OtherFilesKept(old(host.disk), host.disk, v)
      ensures host.faults == old(host.faults) && v !in old(IndexNames()) && repo.GoodPair(old(host.disk), TempFile(uuid)) ==> ok
      ensures !ok && host.faults == old(host.faults) ==> host.disk == old(host.disk) && IndexNames() == old(IndexNames())
      ensures ok && host.faults == old(host.faults) && host.parse(v).Some? ==> repo.Sound(host.disk, v)
    {
      var path := TempFile(uuid);
      ghost var d0, index := host.disk, repo.Index();
      TempOutside(path[|tempDir|], v);
      TempOutside(ChecksumOf(path)[|tempDir|], v);
      assert path == tempDir + [path[|tempDir|]] && ChecksumOf(path) == tempDir + [ChecksumOf(path)[|tempDir|]];
      FileOutsideTemp(path, v);
      FileOutsideTemp(ChecksumOf(path), v);
      ok := repo.Add(path, v);
      ghost var d1 := host.disk;
      if !ok {
        FramedByTwo(d0, d1, d1, JoinPath(repo.root, v), tempDir);
        return;
      }
      AddedMember(index, repo.Index(), v);
      ok := DeleteTemp(path);
      FramedByTwo(d0, d1, host.disk, JoinPath(repo.root, v), tempDir);
      TempFilesGoneBy(d0, d1, path, JoinPath(repo.root, v));
      TempKeepsFiles(d1, host.disk);
      if v != "" { TempKeepsVersion(d1, host.disk, v); }
    }

    lemma TempKeepsVersion(before: Disk, after: Disk, v: Name)
      requires Valid() && Framed(before, after, tempDir) && v != ""
      ensures View(before, repo.root + [v]) == View(after, repo.root + [v])
      ensures repo.Sound(before, v) <==> repo.Sound(after, v)
    {
      Apart(tempDir, repo.root, tempDir, repo.root + [v]);
      repo.SoundByView(before, after, v);
    }

    /** A change of temporary files touches no file of the repository. */
    lemma TempKeepsFiles(before: Disk, after: Disk)
      requires Valid() && Framed(before, after, tempDir)
      ensures forall n :: SameFile(before, after, repo.FileOf(n))
    {
      forall n ensures SameFile(before, after, repo.FileOf(n)) {
        FileInRoot(n);
        Apart(tempDir, repo.root, tempDir, repo.FileOf(n));
        SameView(before, after, repo.FileOf(n), repo.FileOf(n));
      }
    }

    lemma FileOutsideTemp(path: Path, v: Name)
      requires Valid() && tempDir <= path
      ensures !(path <= repo.FileOf(v))
    {
      FileInRoot(v);
      PrefixTransitive(tempDir, path, repo.FileOf(v));
      if path <= repo.FileOf(v) {
        NearTogether(tempDir, repo.root, repo.FileOf(v));
      }
    }

    static lemma AddedMember(s: seq<Name>, t: seq<Name>, n: Name)
      requires multiset(t) == multiset(s) + multiset{n}
      ensures Names(t) == Names(s) + {n}
    {
      assert multiset(t) == multiset(s + [n]);
      PermutedMembers(t, s + [n]);
    }

    /** Of the names `now` in the index, those that were there have a file iff they had one, and
        the others have one. */
    ghost predicate FilesFollow(before: Disk, after: Disk, was: set<Name>, now: set<Name>) {
      forall n | n in now :: IsFile(after, repo.FileOf(n)) <==> (n in was ==> IsFile(before, repo.FileOf(n)))
    }

    /** `ensureLatestAdded`: an empty latest version is not skipped. */
    method EnsureLatestAdded(uuid: string) returns (ok: bool, downloaded: bool)
      requires Valid()
      modifies repo`versions, host`disk, host`faults
      ensures Valid() && (fresh(repo.versions) || repo.versions == old(repo.versions))
      ensures host.faults >= old(host.faults)
      ensures FramedTwo(old(host.disk), host.disk, tempDir, JoinPath(repo.root, Latest()))
      ensures downloaded ==> Latest() !in old(IndexNames())
      ensures host.faults == old(host.faults) ==> downloaded == (Latest() !in old(IndexNames()))
      ensures IndexNames() == old(IndexNames()) || (downloaded && IndexNames() == old(IndexNames()) + {Latest()})
      ensures ok ==> IndexNames() == old(IndexNames()) + {Latest()}
      ensures host.faults == old(host.faults) && (Latest() in old(IndexNames()) || GoodRelease(Latest())) ==> ok
      ensures ok ==> FilesFollow(old(host.disk), host.disk, old(IndexNames()), IndexNames())
      ensures ok && !downloaded ==> Latest() in old(IndexNames()) && host.disk == old(host.disk)
      ensures ok && downloaded ==> AddedRelease(old(host.disk), host.disk, TempFile(uuid))
      ensures host.faults == old(host.faults) && Latest() != "" ==>
                RepoStep(old(host.disk), host.disk, old(IndexNames()), IndexNames())
    {
      ghost var was, index := host.disk, IndexNames();
      downloaded := false;
      ok := host.Attempt();  // the context is not cancelled
      if !ok { return; }
      var lv;
      ok, lv := GetLatest();
      if !ok { return; }
      var alreadyAdded := repo.Get(lv);
      if alreadyAdded.Some? {
        assert old(IndexNames()) + {lv} == old(IndexNames());
        return;
      }
      downloaded := true;
      ok := FetchAndAdd(lv, uuid);
      if host.faults == old(host.faults) && lv != "" {
        RepoStepped(was, host.disk, index, IndexNames(), ok);
      }
    }

    /** The repository after one update that met no failing call: as before, or with the latest
        release added to it and to the index. */
    ghost predicate RepoStep(before: Disk, after: Disk, was: set<Name>, now: set<Name>) {
      || (now == was && OnlyVersion(before, after, ""))
      || (now == was + {Latest()} && OnlyVersion(before, after, Latest()) && AddedSound(after))
    }

    /** Every version other than `v` is as it was. */
    ghost predicate OnlyVersion(before: Disk, after: Disk, v: Name) {
      forall n | n != "" && n != v :: View(before, repo.root + [n]) == View(after, repo.root + [n])
    }

    /** The latest release would pass validation and has the published binary. */
    ghost predicate AddedSound(d: Disk) {
      && Latest() != "" && host.published(Latest()).Some? && repo.Sound(d, Latest())
      && d[repo.FileOf(Latest())] == File(host.published(Latest()).value.0)
    }

    lemma RepoStepped(before: Disk, after: Disk, was: set<Name>, now: set<Name>, ok: bool)
      requires Valid() && Latest() != ""
      requires !ok ==> Framed(before, after, tempDir) && now == was
      requires ok ==> FramedTwo(before, after, tempDir, JoinPath(repo.root, Latest())) && now == was + {Latest()}
      requires ok ==> AddedSound(after)
      ensures RepoStep(before, after, was, now)
    {
      forall n | n != "" && (ok ==> n != Latest()) ensures View(before, repo.root + [n]) == View(after, repo.root + [n]) {
        Apart(tempDir, repo.root, tempDir, repo.root + [n]);
        if ok { SiblingsApart(repo.root, n, Latest()); }
      }
    }

    lemma FramedAcross(before: Disk, mid: Disk, after: Disk, a: Path, b: Path)
      requires Framed(before, mid, a) && FramedTwo(mid, after, b, a)
      ensures FramedTwo(before, after, a, b)
    {
      forall p | !Near(p, a) && !Near(p, b) ensures View(before, p) == View(after, p) {
        assert View(before, p) == View(mid, p);
      }
    }

    lemma DownloadUndone(before: Disk, mid: Disk, after: Disk, path: Path, at: Path, x: Node, y: Node)
      requires path != [] && TempFilesGone(mid, after, path, at)
      requires View(before, path) == map[] && View(before, ChecksumOf(path)) == map[]
      requires mid == before[path := x][ChecksumOf(path) := y]
      ensures Framed(before, after, at)
    {
      assert path !in View(before, path) && ChecksumOf(path) !in View(before, ChecksumOf(path));
      forall q | q in before ensures !(path <= q) && !(ChecksumOf(path) <= q) {
        assert q !in View(before, path) && q !in View(before, ChecksumOf(path));
      }
      assert Without(Without(mid, path), ChecksumOf(path)) == before;
    }

    method FetchAndAdd(lv: Name, uuid: string) returns (ok: bool)
      requires Valid() && lv == Latest() && lv !in IndexNames()
      modifies repo`versions, host`disk, host`faults
      ensures Valid() && (fresh(repo.versions) || repo.versions == old(repo.versions))
      ensures host.faults >= old(host.faults)
      ensures FramedTwo(old(host.disk), host.disk, tempDir, JoinPath(repo.root, Latest()))
      ensures IndexNames() == old(IndexNames()) || IndexNames() == old(IndexNames()) + {lv}
      ensures ok ==> IndexNames() == old(IndexNames()) + {lv}
      ensures host.faults == old(host.faults) && GoodRelease(lv) ==> ok
      ensures ok ==> AddedRelease(old(host.disk), host.disk, TempFile(uuid))
      ensures repo.OtherFilesKept(old(host.disk), host.disk, lv)
      ensures !ok && host.faults == old(host.faults) ==> Framed(old(host.disk), host.disk, tempDir) && IndexNames() == old(IndexNames())
      ensures ok && host.faults == old(host.faults) && host.parse(lv).Some? ==> repo.Sound(host.disk, lv)
    {
      var p;
      ok, p := DownloadVersion(lv, uuid);
      ghost var d1 := host.disk;
      TempKeepsFiles(old(host.disk), d1);
      if !ok {
        FramedByTwo(old(host.disk), d1, d1, tempDir, JoinPath(repo.root, lv));
        return;
      }
      ok := AddDownloaded(uuid, lv);
      FramedAcross(old(host.disk), d1, host.disk, tempDir, JoinPath(repo.root, lv));
      if ok {
        ReleaseAdded(old(host.disk), d1, host.disk, p);
      }
    }

    lemma ReleaseAdded(before: Disk, mid: Disk, after: Disk, path: Path)
      requires Valid() && path != [] && host.published(Latest()).Some?
      requires mid == before[path := File(host.published(Latest()).value.0)]
                            [ChecksumOf(path) := File(host.published(Latest()).value.1)]
      requires repo.GoodPair(mid, path) && TempFilesGone(mid, after, path, JoinPath(repo.root, Latest()))
      requires IsFile(after, repo.FileOf(Latest())) && after[repo.FileOf(Latest())] == mid[path]
      ensures AddedRelease(before, after, path)
    {
      assert |ChecksumOf(path)[|path| - 1]| > |path[|path| - 1]|;
      if View(before, path) == map[] && View(before, ChecksumOf(path)) == map[] {
        DownloadUndone(before, mid, after, path, JoinPath(repo.root, Latest()), mid[path], mid[ChecksumOf(path)]);
      }
    }

    /** The latest release was published with a matching checksum and its binary is in the
        repository; if the temporary files did not exist before, nothing else changed. */
    ghost predicate AddedRelease(before: Disk, after: Disk, path: Path)
      requires path != []
    {
      && GoodRelease(Latest())
      && IsFile(after, repo.FileOf(Latest()))
      && after[repo.FileOf(Latest())] == File(host.published(Latest()).value.0)
      && (View(before, path) == View(before, ChecksumOf(path)) == map[] ==>
            Framed(before, after, JoinPath(repo.root, Latest())))
    }

    lemma AgentFileOutside(v: Name)
      requires Valid()
      ensures !(repo.root <= AgentFile()) && !(repo.root <= ChecksumOf(AgentFile()))
      ensures !Near(AgentFile(), JoinPath(repo.root, v)) && !Near(AgentFile(), ChecksumOf(AgentFile()))
      ensures !Near(AgentFile(), repo.root) && !Near(agentDir, JoinPath(repo.root, v))
    {
      var at := JoinPath(repo.root, v);
      Apart(agentDir, repo.root, AgentFile(), at);
      Apart(agentDir, repo.root, agentDir, at);
      Apart(agentDir, repo.root, AgentFile(), repo.root);
      Apart(agentDir, repo.root, ChecksumOf(AgentFile()), repo.root);
      assert ChecksumOf(AgentFile()) == agentDir + [repo.filename + "." + CHECKSUM_POSTFIX];
      SiblingsApart(agentDir, repo.filename, repo.filename + "." + CHECKSUM_POSTFIX);
    }

    /** Paths below two places that are apart are apart. */
    static lemma Apart(a: Path, b: Path, p: Path, q: Path)
      requires !Near(a, b) && a <= p && b <= q
      ensures !Near(p, q)
    {
      PrefixTransitive(a, p, q);
      PrefixTransitive(b, q, p);
      if p <= q { NearTogether(a, b, q); }
      if q <= p { NearTogether(a, b, p); }
    }

    /** The installed binary is the same file with the same content. */
    ghost predicate SameBinary(before: Disk, after: Disk) {
      View(before, AgentFile()) == View(after, AgentFile())
    }

    lemma SameBinarySameVersion(before: Disk, after: Disk)
      requires SameBinary(before, after)
      ensures Installed(before) == Installed(after)
    {
      SameView(before, after, AgentFile(), AgentFile());
    }

    /** `after` holds the installed binary as a version of the repository; a calm addition of a
        parsable version will pass validation. */
    ghost predicate InstalledAdded(after: Disk, calm: bool) {
      && IsFile(after, AgentFile()) && IsFile(after, repo.FileOf(Installed(after)))
      && after[repo.FileOf(Installed(after))] == after[AgentFile()]
      && (calm && host.parse(Installed(after)).Some? ==> repo.Sound(after, Installed(after)))
    }

    /** The end of `maybeAddInstalledVersion`: hash the binary, write the checksum file, add. */
    method AddInstalledVersion(v: Name) returns (ok: bool)
      requires Valid() && v !in IndexNames() && v == Installed(host.disk) && v != ""
      modifies repo`versions, host`disk, host`faults
      ensures Valid() && (fresh(repo.versions) || repo.versions == old(repo.versions))
      ensures host.faults >= old(host.faults)
      ensures SameBinary(old(host.disk), host.disk) && SameFile(old(host.disk), host.disk, agentDir)
      ensures IndexNames() == old(IndexNames()) || IndexNames() == old(IndexNames()) + {v}
      ensures ok ==> IndexNames() == old(IndexNames()) + {v}
      ensures ok ==> InstalledAdded(host.disk, host.faults == old(host.faults))
      ensures repo.OtherFilesKept(old(host.disk), host.disk, v) && OnlyVersion(old(host.disk), host.disk, v)
      ensures host.faults == old(host.faults) && HexHashes() ==> ok
    {
      ghost var d0 := host.disk;
      ok := WriteAgentChecksum();
      SameBinarySameVersion(d0, host.disk);
      if !ok { return; }
      ok := AddBinary(v);
      if ok {
        ok := host.Attempt();  // close the agent's file
      }
    }

    method AddBinary(v: Name) returns (ok: bool)
      requires Valid() && v == Installed(host.disk) && v != ""
      modifies repo`versions, host`disk, host`faults
      ensures Valid() && (fresh(repo.versions) || repo.versions == old(repo.versions))
      ensures host.faults >= old(host.faults)
      ensures SameBinary(old(host.disk), host.disk) && SameFile(old(host.disk), host.disk, agentDir)
      ensures IndexNames() == if ok then old(IndexNames()) + {v} else old(IndexNames())
      ensures ok ==> InstalledAdded(host.disk, host.faults == old(host.faults))
      ensures repo.OtherFilesKept(old(host.disk), host.disk, v) && OnlyVersion(old(host.disk), host.disk, v)
      ensures host.faults == old(host.faults) && v !in old(IndexNames()) && repo.GoodPair(old(host.disk), AgentFile()) ==> ok
    {
      ghost var was, index := host.disk, repo.Index();
      AgentFileOutside(v);
      FileInRoot(v);
      ok := repo.Add(AgentFile(), v);
      SameView(was, host.disk, AgentFile(), AgentFile());
      SameView(was, host.disk, agentDir, agentDir);
      forall n | n != "" && n != v ensures View(was, repo.root + [n]) == View(host.disk, repo.root + [n]) {
        SiblingsApart(repo.root, n, v);
      }
      if ok {
        AddedMember(index, repo.Index(), v);
      }
    }

    /** A hash in hex has no line ends to trim. */
    ghost predicate HexHashes() {
      forall data :: Text.Trim(host.hash(data), '\n') == host.hash(data)
    }

    method WriteAgentChecksum() returns (ok: bool)
      requires Valid()
      modifies host`disk, host`faults
      ensures host.faults >= old(host.faults)
      ensures SameBinary(old(host.disk), host.disk) && SameFile(old(host.disk), host.disk, agentDir)
      ensures host.faults == old(host.faults) ==> ok
      ensures ok && HexHashes() ==> repo.GoodPair(host.disk, AgentFile())
      ensures forall n :: SameFile(old(host.disk), host.disk, repo.FileOf(n))
      ensures OnlyVersion(old(host.disk), host.disk, "")
    {
      AgentFileOutside("");
      forall n ensures repo.FileOf(n) != ChecksumOf(AgentFile()) { FileInRoot(n); }
      forall n ensures !Near(repo.root + [n], ChecksumOf(AgentFile())) {
        Apart(agentDir, repo.root, ChecksumOf(AgentFile()), repo.root + [n]);
      }
      var data;
      ok, data := host.ReadFile(AgentFile());
      if !ok { return; }
      ok := host.WriteFile(ChecksumOf(AgentFile()), host.hash(data));
    }

    /** The installed version is put into the repository, so that it can be rolled back to. */
    method MaybeAddInstalledVersion() returns (ok: bool)
      requires Valid()
      modifies repo`versions, host`disk, host`faults
      ensures Valid() && (fresh(repo.versions) || repo.versions == old(repo.versions))
      ensures host.faults >= old(host.faults)
      ensures SameBinary(old(host.disk), host.disk) && SameFile(old(host.disk), host.disk, agentDir)
      ensures ok ==> Installed(old(host.disk)) != "" || IndexNames() == old(IndexNames())
      ensures ok && Installed(old(host.disk)) != "" ==> IndexNames() == old(IndexNames()) + {Installed(old(host.disk))}
      ensures ok ==> IndexNames() == old(IndexNames()) || InstalledAdded(host.disk, host.faults == old(host.faults))
      ensures ok ==> FilesFollow(old(host.disk), host.disk, old(IndexNames()), IndexNames())
      ensures ok && IndexNames() == old(IndexNames()) ==> host.disk == old(host.disk)
      ensures OnlyVersion(old(host.disk), host.disk, Installed(old(host.disk)))
      ensures host.faults == old(host.faults) && HexHashes() ==> ok
    {
      ok := host.Attempt();  // the context is not cancelled
      if !ok { return; }
      var v;
      ok, v := GetInstalledVersion();
      if !ok || v == "" { return; }
      var rv := repo.Get(v);
      if rv.Some? {
        assert v in IndexNames();
        return;
      }
      ghost var was := host.disk;
      ok := AddInstalledVersion(v);
      SameBinarySameVersion(was, host.disk);
    }

    /** After `Init`, whatever version is installed is in the repository's index. But if its entry
        was corrupt and the load did not evict, only its name is there: a name of the index lacks
        its file exactly when it is one of the repository's hollow names. */
    method Init() returns (ok: bool)
      requires Valid()
      modifies repo`versions, host`disk, host`faults
      ensures Valid() && (fresh(repo.versions) || repo.versions == old(repo.versions))
      ensures host.faults >= old(host.faults)
      ensures SameBinary(old(host.disk), host.disk) && Installed(host.disk) == Installed(old(host.disk))
      ensures SameFile(old(host.disk), host.disk, agentDir)
      ensures ok ==> "" !in IndexNames()
      ensures ok && Installed(host.disk) != "" ==> Installed(host.disk) in IndexNames()
      ensures ok && host.faults == old(host.faults) ==> HollowOnly(old(host.disk), host.disk, IndexNames())
      ensures ok && host.faults == old(host.faults) && Steady(old(host.disk)) ==> Synced(host.disk, IndexNames())
      ensures host.faults == old(host.faults) && HexHashes() ==> ok
    {
      ghost var d0 := host.disk;
      ok := LoadRepository();
      if !ok { return; }
      ghost var d1, loaded := host.disk, IndexNames();
      ok := host.Attempt();  // connect to the service control manager
      if !ok { return; }
      ok := MaybeAddInstalledVersion();
      SameBinarySameVersion(d1, host.disk);
      if ok && host.faults == old(host.faults) {
        HollowFollows(d0, d1, host.disk, loaded, IndexNames());
        if Steady(d0) { InstalledSynced(d0, d1, host.disk, loaded, IndexNames()); }
      }
    }

    method LoadRepository() returns (ok: bool)
      requires Valid()
      modifies repo`versions, host`disk, host`faults
      ensures Valid() && (fresh(repo.versions) || repo.versions == old(repo.versions))
      ensures host.faults >= old(host.faults) && (!ok ==> host.faults > old(host.faults))
      ensures SameBinary(old(host.disk), host.disk) && Installed(host.disk) == Installed(old(host.disk))
      ensures SameFile(old(host.disk), host.disk, agentDir)
      ensures ok ==> "" !in IndexNames()
      ensures ok && host.faults == old(host.faults) ==> HollowOnly(old(host.disk), host.disk, IndexNames())
      ensures ok && host.faults == old(host.faults) && Steady(old(host.disk)) ==> Synced(host.disk, IndexNames())
    {
      AgentFileOutside("");
      ghost var d0 := host.disk;
      ok := repo.Init();
      SameBinarySameVersion(d0, host.disk);
      SameView(d0, host.disk, agentDir, agentDir);
      if !ok { return; }
      assert "" !in IndexNames() by { ChildrenMembers(d0, repo.root, ""); }
      if host.faults == old(host.faults) {
        LoadedHollow(d0, host.disk);
        if Steady(d0) { LoadedSynced(d0, host.disk); }
      }
    }

    /** Every sound version of the repository has a binary that reports it. */
    ghost predicate Trusted(d: Disk) {
      forall n | n in repo.SoundEntries(d) :: Faithful(d, n)
    }

    /** A machine in order: nothing in the repository is hollow or false, and an agent of a known
        version is installed in its directory. */
    ghost predicate Steady(d: Disk) {
      && repo.Hollow(d) == {} && Trusted(d) && !IsFile(d, agentDir)
      && Installed(d) != "" && host.parse(Installed(d)).Some?
    }

    /** Index and repository agree, every version is sound and reports itself. */
    ghost predicate Synced(d: Disk, names: set<Name>) {
      names == Children(d, repo.root) == repo.SoundEntries(d) && Trusted(d)
    }

    lemma LoadedSynced(before: Disk, after: Disk)
      requires repo.Loaded(before, after, repo.Index(), true) && Steady(before)
      ensures Synced(after, IndexNames())
    {
      forall n | n in repo.SoundEntries(after) ensures Faithful(after, n) {
        repo.GoneOrSame(before, after, n);
        repo.SoundByView(before, after, n);
        ChildrenMembers(before, repo.root, n);
        SameView(before, after, repo.root + [n], repo.FileOf(n));
        assert n in repo.SoundEntries(before);
      }
      NothingHollow(before, after);
    }

    lemma NothingHollow(before: Disk, after: Disk)
      requires repo.Loaded(before, after, repo.Index(), true) && repo.Hollow(before) == {}
      ensures IndexNames() == Children(after, repo.root)
    {
      var found, sound := Children(before, repo.root), repo.SoundEntries(before);
      assert sound <= found;
      if |found| <= NUM_VERSIONS_TO_CACHE {
        assert found - sound == {};
        assert found == sound by {
          forall n | n in found ensures n in sound {
            assert n !in found - sound;
          }
        }
        assert Children(after, repo.root) == sound;
      }
    }

    lemma VersionSynced(before: Disk, after: Disk, names: set<Name>, v: Name)
      requires Synced(before, names) && OnlyVersion(before, after, v)
      requires v != "" && repo.Sound(after, v) && Faithful(after, v)
      ensures Synced(after, names + {v})
    {
      forall n
        ensures n in Children(after, repo.root) <==> n in names + {v}
        ensures n in names + {v} ==> repo.Sound(after, n) && Faithful(after, n)
      {
        ChildrenMembers(after, repo.root, n);
        ChildrenMembers(before, repo.root, n);
        if n != "" && n != v {
          repo.SoundByView(before, after, n);
          SameView(before, after, repo.root + [n], repo.FileOf(n));
          assert n in names ==> n in repo.SoundEntries(before);
        }
      }
    }

    lemma InstalledSynced(before: Disk, mid: Disk, after: Disk, was: set<Name>, now: set<Name>)
      requires Valid() && Steady(before) && Synced(mid, was)
      requires Installed(after) == Installed(before) && OnlyVersion(mid, after, Installed(before))
      requires if now == was then after == mid else now == was + {Installed(before)} && InstalledAdded(after, true)
      ensures Synced(after, now)
    {
      if now != was {
        VersionSynced(mid, after, was, Installed(before));
      }
    }

    lemma SameSynced(before: Disk, after: Disk, names: set<Name>)
      requires Synced(before, names) && OnlyVersion(before, after, "")
      ensures Synced(after, names)
    {
      forall n
        ensures n in Children(after, repo.root) <==> n in names
        ensures n in names ==> repo.Sound(after, n) && Faithful(after, n)
      {
        ChildrenMembers(after, repo.root, n);
        ChildrenMembers(before, repo.root, n);
        if n != "" {
          repo.SoundByView(before, after, n);
          SameView(before, after, repo.root + [n], repo.FileOf(n));
          assert n in names ==> n in repo.SoundEntries(before);
        }
      }
    }

    /** If the latest release is published at all, its binary reports it. */
    ghost predicate TrustedRelease() {
      host.published(Latest()).Some? ==> host.reported(host.published(Latest()).value.0) == Some(Latest())
    }

    lemma StepSynced(before: Disk, after: Disk, was: set<Name>, now: set<Name>)
      requires Valid() && Synced(before, was) && RepoStep(before, after, was, now) && TrustedRelease()
      ensures Synced(after, now)
    {
      if now == was && OnlyVersion(before, after, "") {
        SameSynced(before, after, was);
      } else {
        VersionSynced(before, after, was, Latest());
      }
    }

    /** The hollow names, and of the names in the index only they, have no file. */
    ghost predicate HollowOnly(before: Disk, after: Disk, names: set<Name>) {
      && repo.Hollow(before) <= names
      && forall n | n in names :: IsFile(after, repo.FileOf(n)) <==> n !in repo.Hollow(before)
    }

    lemma LoadedHollow(before: Disk, after: Disk)
      requires repo.Loaded(before, after, repo.Index(), true)
      ensures HollowOnly(before, after, IndexNames())
    {
      forall n | n in IndexNames() ensures IsFile(after, repo.FileOf(n)) <==> n !in repo.Hollow(before) {
        repo.FileUnlessHollow(before, after, repo.Index(), n);
      }
    }

    /** The agent directory holds the binary of version `v` of the repository. */
    ghost predicate Placed(d: Disk, v: Name) {
      IsFile(d, repo.FileOf(v)) && IsFile(d, AgentFile()) && d[AgentFile()] == d[repo.FileOf(v)]
    }

    /** Install a version; when that fails, install the one before it. */
    method InstallOrRollBack(v: Name) returns (ok: bool, rollback: Option<Name>)
      requires Valid() && v in IndexNames()
      modifies repo.versions, host`disk, host`log, host`faults
      ensures Valid() && IndexNames() == old(IndexNames()) && host.faults >= old(host.faults)
      ensures Framed(old(host.disk), host.disk, agentDir)
      ensures Careful(old(host.log)) ==> Careful(host.log)
      ensures rollback.Some? ==> IsPrevious(IndexNames(), v, rollback.value)
      ensures !ok && rollback.None? ==> NoPrevious(IndexNames(), v)
      ensures ok ==> Placed(host.disk, match rollback case Some(q) => q case None => v)
      ensures ok && rollback.None? && IsDir(old(host.disk), agentDir) ==> CleanCopy(host.disk, v)
      ensures Logged(old(host.log), host.log, host.disk, ok, v, rollback,
                     old(host.faults), host.faults, !IsFile(old(host.disk), agentDir))
      ensures IsFile(host.disk, agentDir) ==> IsFile(old(host.disk), agentDir)
      ensures host.faults == old(host.faults) && !IsFile(old(host.disk), agentDir) && AllFiles(old(host.disk), IndexNames()) ==>
                AgentLeft(old(host.disk), host.disk, v, rollback)
    {
      rollback := None;
      ghost var d0, index := host.disk, IndexNames();
      ok := Install(v);
      SameFiles(d0, host.disk, v);
      if ok { return; }
      ghost var mid := host.disk;
      ok, rollback := RollBack(v);
      FramedTwice(d0, mid, host.disk, agentDir);
      SameFiles(d0, host.disk, v);
      if rollback.Some? {
        SameFiles(d0, mid, rollback.value);
        SameFiles(mid, host.disk, rollback.value);
      }
    }

    /** Install the version before `v`, if there is one. */
    method RollBack(v: Name) returns (ok: bool, rollback: Option<Name>)
      requires Valid()
      modifies repo.versions, host`disk, host`log, host`faults
      ensures Valid() && IndexNames() == old(IndexNames()) && host.faults >= old(host.faults)
      ensures Framed(old(host.disk), host.disk, agentDir)
      ensures (Careful(old(host.log)) ==> Careful(host.log)) && old(host.log) <= host.log
      ensures IsFile(host.disk, agentDir) ==> IsFile(old(host.disk), agentDir)
      ensures rollback.None? ==>
                !ok && NoPrevious(IndexNames(), v) && host.disk == old(host.disk) && host.log == old(host.log)
      ensures rollback.Some? ==>
                && IsPrevious(IndexNames(), v, rollback.value)
                && InstallLogged(old(host.log), host.log, ok, old(host.faults), host.faults, Installable(old(host.disk), rollback.value))
                && (ok ==> Placed(host.disk, rollback.value))
                && (host.faults == old(host.faults) && Installable(old(host.disk), rollback.value) ==>
                      host.disk == old(host.disk) || Placed(host.disk, rollback.value))
    {
      ok, rollback := false, None;
      var previous := GetRepoPrevious(v);
      if previous == "" { return; }
      rollback := Some(previous);
      ok := Install(previous);
    }

    /** Every name has its file. */
    ghost predicate AllFiles(d: Disk, names: set<Name>) {
      forall n | n in names :: IsFile(d, repo.FileOf(n))
    }

    /** The agent after an installation and maybe a rollback that met no failing call: untouched, or
        one of the two versions is in its place. It is never just gone. */
    ghost predicate AgentLeft(before: Disk, after: Disk, v: Name, rollback: Option<Name>) {
      || View(after, agentDir) == View(before, agentDir)
      || Placed(after, v)
      || (rollback.Some? && Placed(after, rollback.value))
    }

    lemma SameFiles(before: Disk, after: Disk, v: Name)
      requires Valid() && Framed(before, after, agentDir)
      ensures SameFile(before, after, repo.FileOf(v))
    {
      FileInRoot(v);
      RepositoryUntouched(before, after, repo.root);
      SameView(before, after, repo.root, repo.FileOf(v));
    }

    /** What the service log shows of an installation and the rollback after it: the first failed
        if there was a rollback, and the last succeeded iff there is no error. With no file in the
        way of the agent's directory, each one that failed met a failing call, had no file to
        install, or met a service that did not play along. */
    ghost predicate Logged(before: seq<Event>, after: seq<Event>, d: Disk, ok: bool, v: Name, rollback: Option<Name>,
                           first: nat, last: nat, clear: bool) {
      var rollbackSource := match rollback case Some(q) => clear && IsFile(d, repo.FileOf(q)) case None => false;
      InstallsLogged(before, after, ok, rollback.Some?, first, last, clear && IsFile(d, repo.FileOf(v)), rollbackSource)
    }

    /** Both versions parse, so that they can be compared. */
    ghost predicate Comparable(installed: Name, target: Name) {
      installed == "" || (host.parse(installed).Some? && host.parse(target).Some?)
    }

    /** `Update` from the point where the latest release is in the repository. */
    method InstallNewest(downloaded: bool) returns (ok: bool, r: Report)
      requires Valid()
      modifies repo.versions, host`disk, host`log, host`faults
      ensures Valid() && IndexNames() == old(IndexNames()) && host.faults >= old(host.faults)
      ensures Framed(old(host.disk), host.disk, agentDir)
      ensures Careful(old(host.log)) ==> Careful(host.log)
      ensures r.downloaded == downloaded && IsNewest(host.older, IndexNames(), r.newest)
      ensures r.tried ==> WillInstall(host.older, Installed(old(host.disk)), r.newest)
                          && Comparable(Installed(old(host.disk)), r.newest)
      ensures !r.tried ==> r.rollback == None && host.disk == old(host.disk) && host.log == old(host.log)
      ensures !r.tried && ok ==> !WillInstall(host.older, Installed(old(host.disk)), r.newest)
      ensures !r.tried && host.faults == old(host.faults) ==>
                && !(WillInstall(host.older, Installed(old(host.disk)), r.newest) && Comparable(Installed(old(host.disk)), r.newest))
                && (ok <==> r.newest == "" || Comparable(Installed(old(host.disk)), r.newest))
      ensures r.tried ==> InstallOutcome(IsDir(old(host.disk), agentDir), host.disk, IndexNames(), ok, r)
      ensures r.tried ==> Logged(old(host.log), host.log, host.disk, ok, r.newest, r.rollback,
                                 old(host.faults), host.faults, !IsFile(old(host.disk), agentDir))
      ensures IsFile(host.disk, agentDir) ==> IsFile(old(host.disk), agentDir)
      ensures r.tried && host.faults == old(host.faults) && !IsFile(old(host.disk), agentDir) && AllFiles(old(host.disk), IndexNames()) ==>
                AgentLeft(old(host.disk), host.disk, r.newest, r.rollback)
    {
      var newest, wanted;
      ok, newest, wanted := Choose();
      r := Report(downloaded, newest, wanted, None);
      if !wanted { return; }
      var rollback;
      ok, rollback := InstallOrRollBack(newest);
      r := r.(rollback := rollback);
    }

    /** The newest name of the index, and whether it is to be installed. */
    method Choose() returns (ok: bool, newest: Name, wanted: bool)
      requires Valid()
      modifies repo.versions, host`faults
      ensures Valid() && IndexNames() == old(IndexNames()) && host.faults >= old(host.faults)
      ensures IsNewest(host.older, IndexNames(), newest)
      ensures wanted ==> ok && WillInstall(host.older, Installed(host.disk), newest) && Comparable(Installed(host.disk), newest)
      ensures !wanted && ok ==> !WillInstall(host.older, Installed(host.disk), newest)
      ensures host.faults == old(host.faults) ==>
                && (wanted <==> WillInstall(host.older, Installed(host.disk), newest) && Comparable(Installed(host.disk), newest))
                && (ok <==> || newest == "" || Installed(host.disk) == ""
                            || (host.parse(Installed(host.disk)).Some? && host.parse(newest).Some?))
    {
      newest := GetRepoLatest();
      ok, wanted := true, false;
      if newest == "" { return; }
      var iv;
      ok, iv := GetInstalledVersion();
      if !ok { return; }
      if iv != "" {
        ok := host.parse(iv).Some? && host.parse(newest).Some?;
        if !ok || !host.older(iv, newest) { return; }
      }
      ok := host.Attempt();  // the context is not cancelled
      wanted := ok;
    }

    /** How a tried installation ends: with no error the binary of the chosen version is in place;
        a rollback is to the version before; and with an error there was a rollback or nothing
        older to roll back to. */
    ghost predicate InstallOutcome(wasDir: bool, after: Disk, names: set<Name>, ok: bool, r: Report) {
      && r.newest in names
      && (r.rollback.Some? ==> IsPrevious(names, r.newest, r.rollback.value))
      && (!ok && r.rollback.None? ==> NoPrevious(names, r.newest))
      && (ok ==> Placed(after, r.Last()))
      && (ok && r.rollback.None? && wasDir ==> CleanCopy(after, r.newest))
    }

    method Update(uuid: string) returns (ok: bool, r: Report)
      requires Valid()
      modifies repo`versions, repo.versions, host`disk, host`log, host`faults
      ensures Valid() && (fresh(repo.versions) || repo.versions == old(repo.versions))
      ensures host.faults >= old(host.faults)
      ensures Careful(old(host.log)) ==> Careful(host.log)
      // the repository: only the latest release's own directory may change
      ensures OtherVersionsKept(old(host.disk), host.disk)
      ensures IndexNames() == old(IndexNames()) || IndexNames() == old(IndexNames()) + {Latest()}
      // what was downloaded and tried
      ensures r.downloaded ==> Latest() !in old(IndexNames())
      ensures host.faults == old(host.faults) ==> r.downloaded == (Latest() !in old(IndexNames()))
      ensures r.tried || ok ==> IndexNames() == old(IndexNames()) + {Latest()} && IsNewest(host.older, IndexNames(), r.newest)
      ensures r.tried ==> WillInstall(host.older, Installed(old(host.disk)), r.newest)
                          && Comparable(Installed(old(host.disk)), r.newest)
      ensures (r.tried || ok) && r.downloaded ==> GoodRelease(Latest())
      ensures Latest() !in old(IndexNames()) && !GoodRelease(Latest()) ==> !ok && !r.tried
      ensures r.tried || ok ==> FilesFollow(old(host.disk), host.disk, old(IndexNames()), IndexNames())
      ensures host.faults == old(host.faults) && (Latest() in old(IndexNames()) || GoodRelease(Latest())) ==>
                IndexNames() == old(IndexNames()) + {Latest()} && Decided(Installed(old(host.disk)), IndexNames(), ok, r)
      // how it ended
      ensures !r.tried ==> View(host.disk, agentDir) == View(old(host.disk), agentDir) && host.log == old(host.log)
      ensures !r.tried && ok ==> !WillInstall(host.older, Installed(old(host.disk)), r.newest)
      ensures r.tried ==> InstallOutcome(IsDir(old(host.disk), agentDir), host.disk, IndexNames(), ok, r)
      ensures r.tried ==> Logged(old(host.log), host.log, host.disk, ok, r.newest, r.rollback,
                                 old(host.faults), host.faults, !IsFile(old(host.disk), agentDir))
      // without a failing call
      ensures host.faults == old(host.faults) && Latest() != "" ==>
                RepoStep(old(host.disk), host.disk, old(IndexNames()), IndexNames())
      ensures IsFile(host.disk, agentDir) ==> IsFile(old(host.disk), agentDir)
      ensures r.tried && host.faults == old(host.faults) && !IsFile(old(host.disk), agentDir) && AllFiles(old(host.disk), old(IndexNames())) ==>
                AgentLeft(old(host.disk), host.disk, r.newest, r.rollback)
    {
      var downloaded;
      ok, downloaded := EnsureLatestAdded(uuid);
      r := Report(downloaded, "", false, None);
      ghost var mid := host.disk;
      UpdateFrame(old(host.disk), mid, mid);
      if !ok { return; }
      ghost var faults := host.faults;
      ok, r := InstallNewest(downloaded);
      if r.tried {
        LoggedFrom(old(host.log), host.log, host.disk, ok, r, old(host.faults), faults, host.faults, !IsFile(old(host.disk), agentDir));
      }
      UpdateFrame(old(host.disk), mid, host.disk);
      UpdateFiles(old(host.disk), mid, host.disk, old(IndexNames()), IndexNames());
      if host.faults == old(host.faults) && Latest() != "" {
        RepoStepThen(old(host.disk), mid, host.disk, old(IndexNames()), IndexNames());
      }
    }

    /** Every version other than the latest release is as it was. */
    ghost predicate OtherVersionsKept(before: Disk, after: Disk) {
      forall n | n != "" && n != Latest() && Latest() != "" :: View(before, repo.root + [n]) == View(after, repo.root + [n])
    }

    lemma RepoStepThen(before: Disk, mid: Disk, after: Disk, was: set<Name>, now: set<Name>)
      requires Valid() && RepoStep(before, mid, was, now) && Framed(mid, after, agentDir)
      ensures RepoStep(before, after, was, now)
    {
      forall n | n != "" ensures View(mid, repo.root + [n]) == View(after, repo.root + [n]) {
        RepositoryUntouched(mid, after, repo.root + [n]);
      }
      if Latest() != "" {
        repo.SoundByView(mid, after, Latest());
        SameView(mid, after, repo.root + [Latest()], repo.FileOf(Latest()));
      }
    }

    lemma UpdateFiles(before: Disk, mid: Disk, after: Disk, was: set<Name>, now: set<Name>)
      requires Valid() && FilesFollow(before, mid, was, now) && Framed(mid, after, agentDir)
      ensures FilesFollow(before, after, was, now)
    {
      forall n ensures SameFile(mid, after, repo.FileOf(n)) { SameFiles(mid, after, n); }
    }

    lemma UpdateFrame(before: Disk, mid: Disk, after: Disk)
      requires Valid() && FramedTwo(before, mid, tempDir, JoinPath(repo.root, Latest())) && Framed(mid, after, agentDir)
      ensures View(before, agentDir) == View(mid, agentDir) && Installed(before) == Installed(mid)
      ensures IsDir(before, agentDir) == IsDir(mid, agentDir) && IsFile(before, agentDir) == IsFile(mid, agentDir)
      ensures OtherVersionsKept(before, after)
    {
      Apart(agentDir, repo.root, agentDir, JoinPath(repo.root, Latest()));
      SameAgentFile(before, mid);
      SameView(before, mid, agentDir, agentDir);
      forall n | n != "" && n != Latest() && Latest() != ""
        ensures View(before, repo.root + [n]) == View(after, repo.root + [n])
      {
        Apart(agentDir, repo.root, agentDir, repo.root + [n]);
        Apart(tempDir, repo.root, tempDir, repo.root + [n]);
        SiblingsApart(repo.root, n, Latest());
        assert View(before, repo.root + [n]) == View(mid, repo.root + [n]);
      }
    }

    /** The `update` command: initialise, then update. An update never downgrades: with no error,
        either the installed binary is untouched, or the version put in its place is not older
        than the one installed before, and that also when the newest version could not be
        installed and the one before it was. A rollback finds the file of its target unless the
        target is hollow: its entry was corrupt when the command began, and nothing was evicted. */
    method UpdateCommand(uuid: string) returns (ok: bool, r: Report)
      requires Valid()
      modifies repo`versions, repo.versions, host`disk, host`log, host`faults
      ensures Valid() && (Careful(old(host.log)) ==> Careful(host.log))
      ensures !r.tried ==> SameBinary(old(host.disk), host.disk)
      ensures r.tried && Installed(old(host.disk)) != "" ==>
                RollbackTarget(Installed(old(host.disk)), r, ok)
      ensures r.tried && host.faults == old(host.faults) ==> HollowOnly(old(host.disk), host.disk, IndexNames())
      ensures r.tried ==> r.newest in IndexNames() && (r.rollback.Some? ==> r.rollback.value in IndexNames())
      ensures r.tried ==> Logged(old(host.log), host.log, host.disk, ok, r.newest, r.rollback,
                                 old(host.faults), host.faults, !IsFile(old(host.disk), agentDir))
      ensures ok && r.tried ==> Placed(host.disk, r.Last())
      ensures ok && r.tried && Installed(old(host.disk)) != "" ==>
                !host.older(r.Last(), Installed(old(host.disk)))
      ensures ok && Installed(old(host.disk)) != "" && (r.tried ==> Faithful(host.disk, r.Last())) ==>
                !host.older(Installed(host.disk), Installed(old(host.disk)))
      ensures host.faults >= old(host.faults)
      ensures host.faults == old(host.faults) && HexHashes() && (r.downloaded ==> GoodRelease(Latest())) ==>
                Decided(Installed(old(host.disk)), IndexNames(), ok, r)
      ensures host.faults == old(host.faults) && Steady(old(host.disk)) && WellServed() ==>
                Steady(host.disk) && !host.older(Installed(host.disk), Installed(old(host.disk)))
    {
      r := Report(false, "", false, None);
      ghost var was := host.disk;
      ok := Init();
      if !ok { return; }
      ghost var ready := host.disk;
      ghost var index, faults := IndexNames(), host.faults;
      ok, r := UpdateReady(uuid);
      if r.tried {
        if host.faults == old(host.faults) { HollowFollows(was, ready, host.disk, index, IndexNames()); }
        LoggedFrom(old(host.log), host.log, host.disk, ok, r, old(host.faults), faults, host.faults, !IsFile(was, agentDir));
      }
    }

    /** The `update` command once it is initialised. */
    method UpdateReady(uuid: string) returns (ok: bool, r: Report)
      requires Valid() && "" !in IndexNames() && (Installed(host.disk) != "" ==> Installed(host.disk) in IndexNames())
      modifies repo`versions, repo.versions, host`disk, host`log, host`faults
      ensures Valid() && (Careful(old(host.log)) ==> Careful(host.log))
      ensures host.faults >= old(host.faults)
      ensures !r.tried ==> SameBinary(old(host.disk), host.disk)
      ensures r.tried && Installed(old(host.disk)) != "" ==> RollbackTarget(Installed(old(host.disk)), r, ok)
      ensures r.tried ==> FilesFollow(old(host.disk), host.disk, old(IndexNames()), IndexNames()) && old(IndexNames()) <= IndexNames()
      ensures r.tried ==> r.newest in IndexNames() && (r.rollback.Some? ==> r.rollback.value in IndexNames())
      ensures r.tried ==> Logged(old(host.log), host.log, host.disk, ok, r.newest, r.rollback,
                                 old(host.faults), host.faults, !IsFile(old(host.disk), agentDir))
      ensures ok && r.tried ==> Placed(host.disk, r.Last())
      ensures ok && r.tried && Installed(old(host.disk)) != "" ==> !host.older(r.Last(), Installed(old(host.disk)))
      ensures ok && Installed(old(host.disk)) != "" && (r.tried ==> Faithful(host.disk, r.Last())) ==>
                !host.older(Installed(host.disk), Installed(old(host.disk)))
      ensures host.faults == old(host.faults) && (r.downloaded ==> GoodRelease(Latest())) ==>
                Decided(Installed(old(host.disk)), IndexNames(), ok, r)
      ensures && host.faults == old(host.faults) && Synced(old(host.disk), old(IndexNames())) && WellServed()
              && Steady(old(host.disk)) ==>
                Steady(host.disk) && !host.older(Installed(host.disk), Installed(old(host.disk)))
    {
      ghost var ready, index := host.disk, IndexNames();
      ok, r := Update(uuid);
      if host.faults == old(host.faults) && Steady(ready) && Synced(ready, index) && WellServed() {
        StaysSteady(ready, host.disk, index, IndexNames(), ok, r);
      }
      if r.tried {
        if Installed(ready) != "" {
          NoDowngrade(Installed(ready), IsDir(ready, agentDir), host.disk, IndexNames(), ok, r);
        }
      } else {
        Untouched(ready, host.disk);
      }
    }

    /** What a run of updates relies on: hashes are hex, the latest release is known, and if it is
        published its binary reports it. */
    ghost predicate WellServed() {
      HexHashes() && Latest() != "" && TrustedRelease()
    }

    /** What one `update` command did to the disk, and why. */
    ghost predicate UpdateDone(before: Disk, after: Disk, ok: bool, r: Report, calm: bool) {
      && (!r.tried ==> SameBinary(before, after))
      && (ok && r.tried ==> Placed(after, r.Last()))
      && (r.tried && Installed(before) != "" ==> RollbackTarget(Installed(before), r, ok))
      && (calm && HexHashes() && (r.downloaded ==> GoodRelease(Latest())) ==>
            exists names :: Decided(Installed(before), names, ok, r))
    }

    /** Any sequence of `update` commands, each in a process of its own. On a machine in order, and
        without a failing call, the agent never disappears and is never downgraded, however the
        services behave, however many installations fail and whatever is rolled back. `disks` are
        the trees before, between and after the commands. */
    method RunUpdates(uuids: seq<string>) returns (oks: seq<bool>, reports: seq<Report>, ghost disks: seq<Disk>)
      requires Valid()
      modifies host`disk, host`log, host`faults
      ensures host.faults >= old(host.faults) && (Careful(old(host.log)) ==> Careful(host.log))
      ensures |oks| == |reports| == |uuids| && |disks| == |uuids| + 1
      ensures disks[0] == old(host.disk) && disks[|uuids|] == host.disk
      ensures forall i | 0 <= i < |uuids| ::
                UpdateDone(disks[i], disks[i + 1], oks[i], reports[i], host.faults == old(host.faults))
      ensures host.faults == old(host.faults) && Steady(old(host.disk)) && WellServed() ==>
                Steady(host.disk) && !host.older(Installed(host.disk), Installed(old(host.disk)))
    {
      assert !host.older(Installed(host.disk), Installed(host.disk));
      oks, reports, disks := [], [], [host.disk];
      for i := 0 to |uuids|
        invariant host.faults >= old(host.faults) && (Careful(old(host.log)) ==> Careful(host.log))
        invariant |oks| == |reports| == i && |disks| == i + 1 && disks[0] == old(host.disk) && disks[i] == host.disk
        invariant forall k | 0 <= k < i ::
                    UpdateDone(disks[k], disks[k + 1], oks[k], reports[k], host.faults == old(host.faults))
        invariant host.faults == old(host.faults) && Steady(old(host.disk)) && WellServed() ==>
                    Steady(host.disk) && !host.older(Installed(host.disk), Installed(old(host.disk)))
      {
        ghost var before, faults := host.disk, host.faults;
        var ok, r := UpdateProcess(uuids[i]);
        forall k | 0 <= k < i
          ensures UpdateDone(disks[k], disks[k + 1], oks[k], reports[k], host.faults == old(host.faults))
        {
          assert UpdateDone(disks[k], disks[k + 1], oks[k], reports[k], faults == old(host.faults));
        }
        oks, reports, disks := oks + [ok], reports + [r], disks + [host.disk];
      }
    }

    /** One `update` command in a process of its own, configured as this one. */
    method UpdateProcess(uuid: string) returns (ok: bool, r: Report)
      requires Valid()
      modifies host`disk, host`log, host`faults
      ensures host.faults >= old(host.faults) && (Careful(old(host.log)) ==> Careful(host.log))
      ensures UpdateDone(old(host.disk), host.disk, ok, r, host.faults == old(host.faults))
      ensures host.faults == old(host.faults) && Steady(old(host.disk)) && WellServed() ==>
                Steady(host.disk) && !host.older(Installed(host.disk), Installed(old(host.disk)))
    {
      var u := new GuestAgent(host, agentDir, repo.filename, repo.root, tempDir);
      ghost var before := host.disk;
      SameConfiguration(u, before);
      ok, r := u.UpdateCommand(uuid);
      SameConfiguration(u, host.disk);
      ghost var calm := host.faults == old(host.faults);
      assert u.UpdateDone(before, host.disk, ok, r, calm);
      SameDone(u, before, host.disk, ok, r, calm);
    }

    lemma SameDone(u: GuestAgent, before: Disk, after: Disk, ok: bool, r: Report, calm: bool)
      requires u.host == host && u.agentDir == agentDir && u.repo.host == repo.host
      requires u.repo.root == repo.root && u.repo.filename == repo.filename
      requires u.UpdateDone(before, after, ok, r, calm)
      ensures UpdateDone(before, after, ok, r, calm)
    {
      SameConfiguration(u, before);
      assert u.HexHashes() == HexHashes() && u.GoodRelease(Latest()) == GoodRelease(Latest());
      if calm && HexHashes() && (r.downloaded ==> GoodRelease(Latest())) {
        var names :| u.Decided(u.Installed(before), names, ok, r);
        assert Decided(Installed(before), names, ok, r);
      }
      assert r.tried ==> u.repo.FileOf(r.Last()) == repo.FileOf(r.Last());
    }

    /** Updaters configured alike see the same in a tree. */
    lemma SameConfiguration(u: GuestAgent, d: Disk)
      requires u.host == host && u.agentDir == agentDir && u.repo.host == repo.host
      requires u.repo.root == repo.root && u.repo.filename == repo.filename
      ensures u.Installed(d) == Installed(d) && u.Latest() == Latest()
      ensures u.Steady(d) == Steady(d) && u.WellServed() == WellServed()
    {
      assert u.AgentFile() == AgentFile();
      forall n ensures u.repo.FileOf(n) == repo.FileOf(n) && u.repo.Sound(d, n) == repo.Sound(d, n) { }
      assert u.repo.SoundEntries(d) == repo.SoundEntries(d) && u.repo.Hollow(d) == repo.Hollow(d);
      assert forall n :: u.Faithful(d, n) == Faithful(d, n);
    }

    /** Without a failing call, and whatever the services do, a machine in order stays so, and the
        agent on it is not older than before. */
    lemma StaysSteady(was: Disk, after: Disk, index: set<Name>, names: set<Name>, ok: bool, r: Report)
      requires Valid() && Steady(was) && Synced(was, index) && TrustedRelease()
      requires Installed(was) in index && index <= names && RepoStep(was, after, index, names)
      requires IsFile(after, agentDir) ==> IsFile(was, agentDir)
      requires !r.tried ==> View(after, agentDir) == View(was, agentDir)
      requires r.tried && AllFiles(was, index) ==> AgentLeft(was, after, r.newest, r.rollback)
      requires r.tried ==> WillInstall(host.older, Installed(was), r.newest) && InstallOutcome(IsDir(was, agentDir), after, names, ok, r)
      ensures Steady(after) && !host.older(Installed(after), Installed(was))
    {
      var installed := Installed(was);
      assert !host.older(installed, installed);
      assert r.tried ==> host.older(installed, r.newest) && !host.older(r.newest, installed);

      StepSynced(was, after, index, names);
      SyncedFiles(was, index);
      if r.tried && Placed(after, r.newest) {
        PlacedInstalled(after, names, r.newest);
      } else if r.tried && r.rollback.Some? && Placed(after, r.rollback.value) {
        PlacedInstalled(after, names, r.rollback.value);
        PreviousNotOlder(names, installed, r.newest, r.rollback.value);
      } else {
        SameAgentFile(was, after);
      }
      SyncedSteady(after, names);
    }

    lemma SyncedFiles(d: Disk, names: set<Name>)
      requires Synced(d, names)
      ensures AllFiles(d, names)
    {
      forall n | n in names ensures IsFile(d, repo.FileOf(n)) {
        assert n in repo.SoundEntries(d);
      }
    }

    lemma SyncedSteady(d: Disk, names: set<Name>)
      requires Synced(d, names) && !IsFile(d, agentDir) && Installed(d) != "" && host.parse(Installed(d)).Some?
      ensures Steady(d)
    {
    }

    lemma PreviousNotOlder(names: set<Name>, installed: Name, newest: Name, previous: Name)
      requires installed in names && host.older(installed, newest) && IsPrevious(names, newest, previous)
      ensures !host.older(previous, installed)
    {
    }

    lemma PlacedInstalled(d: Disk, names: set<Name>, v: Name)
      requires Valid() && Synced(d, names) && v in names && Placed(d, v)
      ensures Installed(d) == v != "" && host.parse(v).Some?
    {
      assert v in repo.SoundEntries(d);
      ChildrenMembers(d, repo.root, v);
    }

    /** What an update decides: the newest name is tried iff it is to be installed and can be compared.
        If it is not tried there is an error only when the versions cannot be compared, so a machine
        that is up to date gets none. */
    ghost predicate Decided(installed: Name, names: set<Name>, ok: bool, r: Report) {
      && Latest() in names && IsNewest(host.older, names, r.newest)
      && (r.tried <==> WillInstall(host.older, installed, r.newest) && Comparable(installed, r.newest))
      && (!r.tried ==> (ok <==> r.newest == "" || Comparable(installed, r.newest)))
      && (installed != "" && host.parse(installed).Some? && host.parse(r.newest).Some? && !host.older(installed, r.newest) ==> ok)
      && (installed != "" && r.newest != "" && (host.parse(installed).None? || host.parse(r.newest).None?) ==> !ok && !r.tried)
    }

    lemma HollowFollows(before: Disk, mid: Disk, after: Disk, was: set<Name>, now: set<Name>)
      requires HollowOnly(before, mid, was) && FilesFollow(mid, after, was, now) && was <= now
      ensures HollowOnly(before, after, now)
    {
    }

    /** Counting the failed calls from an earlier point on promises less. */
    lemma LoggedFrom(before: seq<Event>, after: seq<Event>, d: Disk, ok: bool, r: Report,
                     earlier: nat, first: nat, last: nat, clear: bool)
      requires Logged(before, after, d, ok, r.newest, r.rollback, first, last, clear) && earlier <= first <= last
      ensures Logged(before, after, d, ok, r.newest, r.rollback, earlier, last, clear)
    {
      if r.rollback.Some? {
        var source := clear && IsFile(d, repo.FileOf(r.newest));
        var between, faults: nat :| && before <= between <= after && first <= faults <= last
                                    && InstallLogged(before, between, false, first, faults, source)
                                    && InstallLogged(between, after, ok, faults, last, clear && IsFile(d, repo.FileOf(r.rollback.value)));
        assert InstallLogged(before, between, false, earlier, faults, source);
      }
    }

    /** Once an installation of a newer version was tried, whatever version was installed last is
        not older than the one before. */
    lemma NoDowngrade(installed: Name, wasDir: bool, after: Disk, names: set<Name>, ok: bool, r: Report)
      requires WeakOrder(host.older) && installed in names && ("" in names ==> Latest() == "")
      requires InstallOutcome(wasDir, after, names, ok, r) && WillInstall(host.older, installed, r.newest)
      requires installed != ""
      ensures RollbackTarget(installed, r, ok) && !host.older(r.Last(), installed)
      ensures ok && Faithful(after, r.Last()) ==> !host.older(Installed(after), installed)
    {
    }

    lemma Untouched(before: Disk, after: Disk)
      requires View(before, agentDir) == View(after, agentDir)
      ensures SameBinary(before, after) && Installed(before) == Installed(after)
    {
      SameViewBelow(before, after, agentDir, AgentFile());
      SameBinarySameVersion(before, after);
    }

    static lemma SameViewBelow(before: Disk, after: Disk, at: Path, below: Path)
      requires View(before, at) == View(after, at) && at <= below
      ensures View(before, below) == View(after, below)
    {
      forall q | below <= q
        ensures (q in before <==> q in after) && (q in before ==> before[q] == after[q])
      {
        PrefixTransitive(at, below, q);
        SameView(before, after, at, q);
      }
    }

    /** The repository's binary of version `v` reports that version. */
    ghost predicate Faithful(d: Disk, v: Name) {
      IsFile(d, repo.FileOf(v)) && host.reported(d[repo.FileOf(v)].data) == Some(v)
    }

    /** With a version installed, a failed update to a newer one has a version to go back to, which
        lies between the two. The one exception: the latest release is unknown, and the installed
        version is not newer than the zero version, as which the empty name is read. */
    ghost predicate RollbackTarget(installed: Name, r: Report, ok: bool) {
      && host.older(installed, r.newest)
      && (!ok && (Latest() != "" || host.older("", installed)) ==> r.rollback.Some?)
      && (r.rollback.Some? ==> !host.older(r.rollback.value, installed) && !host.older(r.newest, r.rollback.value))
    }

    /** Nothing is installed, or a version that is not older than the zero version, as which a name
        that does not parse is read. */
    ghost predicate AtLeastZero(installed: Name) {
      installed == "" || !host.older(installed, "")
    }

    /** What the answer of a dry run says of the update that follows. It has the Download part iff
        the update downloads a known release, and the Install part iff nothing is installed; the
        newest version is tried iff the answer has the Install or Update part, what is to be
        downloaded has a matching checksum, and the version can be compared with the installed one,
        which is always so unless that is older than the zero version. If the latest release is not
        known, the update downloads although the answer never has the Download part. */
    ghost predicate Foretold(installed: Name, state: int, r: Report, names: set<Name>) {
      && 0 <= state <= 5
      && (state in {1, 3, 5} <==> r.downloaded && Latest() != "")
      && (state in {4, 5} <==> installed == "")
      && (r.downloaded && r.tried ==> GoodRelease(Latest()))
      && (Latest() == "" ==> r.downloaded)
      && (Latest() != "" ==>
            && (r.tried <==> state >= 2 && Comparable(installed, r.newest) && (state in {1, 3, 5} ==> GoodRelease(Latest())))
            && (r.tried ==> IsNewest(host.older, names, r.newest) && Latest() in names)
            && (AtLeastZero(installed) ==> (r.tried <==> state >= 2 && (state in {1, 3, 5} ==> GoodRelease(Latest())))))
    }

    lemma Foretells(installed: Name, index: set<Name>, state: int, r: Report, names: set<Name>)
      requires OrdersNames(host.parse, host.older) && "" !in index
      requires installed != "" ==> installed in index && host.parse(installed).Some?
      requires exists n :: IsNewest(host.older, index, n) && state == Answer(host.older, installed, Latest(), index, n)
      requires r.downloaded == (Latest() !in index)
      requires Latest() !in index && !GoodRelease(Latest()) ==> !r.tried
      requires Latest() in index || GoodRelease(Latest()) ==>
                 names == index + {Latest()} && exists ok :: Decided(installed, names, ok, r)
      ensures Foretold(installed, state, r, names)
    {
      var n :| IsNewest(host.older, index, n) && state == Answer(host.older, installed, Latest(), index, n);
      if Latest() != "" && (Latest() in index || GoodRelease(Latest())) {
        AnswerPredictsRun(host.older, installed, Latest(), index, n, r.newest);
      }
    }

    /** The dry run predicts the run, when no call fails: initialise, check, update. */
    method DryRunThenUpdate(uuid: string) returns (ready: bool, state: int, r: Report)
      requires Valid()
      modifies repo`versions, repo.versions, host`disk, host`log, host`faults
      ensures ready && host.faults == old(host.faults) ==> Foretold(Installed(old(host.disk)), state, r, IndexNames())
      ensures !ready && host.faults == old(host.faults) && HexHashes() ==>
                Installed(old(host.disk)) != "" && host.parse(Installed(old(host.disk))).None?
    {
      state, r := UNKNOWN, Report(false, "", false, None);
      ready := Init();
      if !ready { return; }
      ready, state := Check();
      if !ready { return; }
      ghost var installed, index := Installed(host.disk), IndexNames();
      var ok;
      ok, r := Update(uuid);
      if host.faults == old(host.faults) {
        Foretells(installed, index, state, r, IndexNames());
      }
    }
  }

  /** The subcommands of the updater that touch the machine. */
  datatype Command = DryRunCommand | UpdateCommand(uuid: string) | StartCommand | StopCommand | RemoveCommand

  /** What a command that got past its initialisation leaves in the service log. */
  ghost predicate CommandLogged(c: Command, before: seq<Event>, after: seq<Event>, ok: bool, calm: bool) {
    match c
    case DryRunCommand => after == before
    case UpdateCommand(_) => true
    case StartCommand =>
      if ok then Started(before, after, SERVICE_NAME) else calm ==> StartBalks(before, after, SERVICE_NAME)
    case StopCommand =>
      if ok then HasStopped(before, after, SERVICE_NAME) else calm ==> StopBalks(before, after, SERVICE_NAME)
    case RemoveCommand =>
      if ok then Removed(before, after, SERVICE_NAME) else calm ==> RemovalBalks(before, after, SERVICE_NAME)
  }

  /** Any sequence of updater commands, each in a process of its own and each allowed to fail:
      the log of the service control manager stays careful throughout. `logs` are the logs before,
      between and after the commands, and `ready` says which were initialised. */
  method RunCommands(host: Host, agentDir: Path, executable: Name, repositoryRoot: Path, tempDir: Path,
                     commands: seq<Command>)
    returns (ready: seq<bool>, oks: seq<bool>, ghost logs: seq<seq<Event>>)
    requires executable != "" && OrdersNames(host.parse, host.older)
    requires !Near(agentDir, repositoryRoot) && !Near(tempDir, repositoryRoot) && !Near(tempDir, agentDir)
    modifies host`disk, host`log, host`faults
    ensures Careful(old(host.log)) ==> Careful(host.log)
    ensures |ready| == |oks| == |commands| && |logs| == |commands| + 1
    ensures logs[0] == old(host.log) && logs[|commands|] == host.log && host.faults >= old(host.faults)
    ensures forall i | 0 <= i < |commands| ::
              if ready[i] then CommandLogged(commands[i], logs[i], logs[i + 1], oks[i], host.faults == old(host.faults))
              else logs[i + 1] == logs[i]
    ensures host.faults == old(host.faults) && (forall data :: Text.Trim(host.hash(data), '\n') == host.hash(data)) ==>
              forall i | 0 <= i < |commands| :: ready[i]
  {
    ready, oks, logs := [], [], [host.log];
    for i := 0 to |commands|
      invariant Careful(old(host.log)) ==> Careful(host.log)
      invariant |ready| == |oks| == i && |logs| == i + 1
      invariant logs[0] == old(host.log) && logs[i] == host.log && host.faults >= old(host.faults)
      invariant forall k | 0 <= k < i ::
                  if ready[k] then CommandLogged(commands[k], logs[k], logs[k + 1], oks[k], host.faults == old(host.faults))
                  else logs[k + 1] == logs[k]
      invariant host.faults == old(host.faults) && (forall data :: Text.Trim(host.hash(data), '\n') == host.hash(data)) ==>
                  forall k | 0 <= k < i :: ready[k]
    {
      ghost var faults := host.faults;
      var initialised, ok := RunCommand(host, agentDir, executable, repositoryRoot, tempDir, commands[i]);
      forall k | 0 <= k < i
        ensures if ready[k] then CommandLogged(commands[k], logs[k], logs[k + 1], oks[k], host.faults == old(host.faults))
                else logs[k + 1] == logs[k]
      {
        assert ready[k] ==> CommandLogged(commands[k], logs[k], logs[k + 1], oks[k], faults == old(host.faults));
      }
      ready, oks, logs := ready + [initialised], oks + [ok], logs + [host.log];
    }
  }

  /** One command, in a process of its own. */
  method RunCommand(host: Host, agentDir: Path, executable: Name, repositoryRoot: Path, tempDir: Path, command: Command)
    returns (ready: bool, ok: bool)
    requires executable != "" && OrdersNames(host.parse, host.older)
    requires !Near(agentDir, repositoryRoot) && !Near(tempDir, repositoryRoot) && !Near(tempDir, agentDir)
    modifies host`disk, host`log, host`faults
    ensures host.faults >= old(host.faults) && (Careful(old(host.log)) ==> Careful(host.log))
    ensures if ready then CommandLogged(command, old(host.log), host.log, ok, host.faults == old(host.faults))
            else host.log == old(host.log)
    ensures host.faults == old(host.faults) && (forall data :: Text.Trim(host.hash(data), '\n') == host.hash(data)) ==> ready
  {
    var u := new GuestAgent(host, agentDir, executable, repositoryRoot, tempDir);
    ready := u.Init();
    ok := ready;
    if !ready { return; }
    match command
    case DryRunCommand =>
      var state;
      ok, state := u.Check();
    case UpdateCommand(uuid) =>
      var report;
      ok, report := u.Update(uuid);
    case StartCommand =>
      ok := u.Start();
    case StopCommand =>
      ok := u.Stop();
    case RemoveCommand =>
      ok := u.Remove();
  }
}
