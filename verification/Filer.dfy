/** The local repository of releases: a directory with one subdirectory for each version, and an
    index of their names held in an array that `List` hands out to callers. */
module Filer {
  import opened Versions
  import opened Sorting
  import opened Eviction
  import Text
  import opened Machine

  const CHECKSUM_POSTFIX := "sha256"

  /** `joinWithDots(path, "sha256")`: the checksum file beside a file. */
  function ChecksumOf(path: Path): Path {
    if path == [] then ["." + CHECKSUM_POSTFIX]
    else path[..|path| - 1] + [path[|path| - 1] + "." + CHECKSUM_POSTFIX]
  }

  /** `filepath.Join`: an empty last element adds nothing. */
  function JoinPath(dir: Path, name: Name): Path {
    if name == "" then dir else dir + [name]
  }

  /** Each entry of a directory is either as it was or gone. */
  ghost predicate KeptOrGone(before: Disk, after: Disk, root: Path) {
    forall n :: n == "" || View(after, root + [n]) == View(before, root + [n]) || View(after, root + [n]) == map[]
  }

  /** A text between any number of line ends. */
  ghost predicate Holds(text: Bytes, core: string) {
    exists x, y :: Text.AllOf(x, '\n') && Text.AllOf(y, '\n') && text == x + core + y
  }

  class LocalFiler {
    const host: Host
    const root: Path
    const filename: Name
    var versions: array<Name>

    constructor (host: Host, root: Path, filename: Name)
      requires filename != "" && OrdersNames(host.parse, host.older)
      ensures this.host == host && this.root == root && this.filename == filename
      ensures fresh(versions) && versions.Length == 0 && Valid()
    {
      this.host, this.root, this.filename, versions := host, root, filename, new Name[0];
    }

    ghost predicate Valid()
      reads this, versions
    {
      filename != "" && OrdersNames(host.parse, host.older) && Distinct(versions[..])
    }

    ghost function Index(): seq<Name>
      reads this, versions
    {
      versions[..]
    }

    function FileOf(version: Name): Path {
      JoinPath(root, version) + [filename]
    }

    /** The version named `n` would pass validation in tree `d`. */
    ghost predicate Sound(d: Disk, n: Name) {
      host.parse(n).Some? && IsDir(d, JoinPath(root, n)) && GoodPair(d, FileOf(n))
    }

    /** A file and its checksum file exist and agree. */
    ghost predicate GoodPair(d: Disk, path: Path) {
      && IsFile(d, path) && IsFile(d, ChecksumOf(path))
      && host.hash(d[path].data) == Text.Trim(d[ChecksumOf(path)].data, '\n')
    }

    /** A file and its checksum file agree iff the checksum file holds the hash between any number of
        line ends; for a hash that has no line end at either end. */
    lemma GoodPairIff(d: Disk, path: Path)
      requires IsFile(d, path) && IsFile(d, ChecksumOf(path)) && Text.Bare(host.hash(d[path].data), '\n')
      ensures GoodPair(d, path) <==> Holds(d[ChecksumOf(path)].data, host.hash(d[path].data))
    {
      Text.TrimTakesEnds(d[ChecksumOf(path)].data, '\n', host.hash(d[path].data));
    }

    /** Where a sound version keeps what: its directory, the binary in it, and beside that the file
        with the ending `.sha256`. */
    lemma SoundLayout(d: Disk, n: Name)
      requires Valid() && forall data :: Text.Bare(host.hash(data), '\n')
      ensures Sound(d, n) <==>
                && host.parse(n).Some? && root + [n] in d && d[root + [n]] == Dir
                && root + [n, filename] in d && d[root + [n, filename]].File?
                && root + [n, filename + ".sha256"] in d && d[root + [n, filename + ".sha256"]].File?
                && Holds(d[root + [n, filename + ".sha256"]].data, host.hash(d[root + [n, filename]].data))
    {
      if n != "" {
        var file := root + [n, filename];
        assert FileOf(n) == file;
        assert file[..|file| - 1] == root + [n] && file[|file| - 1] + "." + CHECKSUM_POSTFIX == filename + ".sha256";
        assert ChecksumOf(file) == root + [n, filename + ".sha256"];
        if IsFile(d, file) && IsFile(d, ChecksumOf(file)) { GoodPairIff(d, file); }
      }
    }

    ghost function SoundEntries(d: Disk): set<Name> {
      set n | n in Children(d, root) && Sound(d, n)
    }

    lemma SoundByView(before: Disk, after: Disk, n: Name)
      requires n != "" && View(before, root + [n]) == View(after, root + [n])
      ensures Sound(before, n) <==> Sound(after, n)
      ensures n in Children(before, root) <==> n in Children(after, root)
    {
      ChildrenMembers(before, root, n);
      ChildrenMembers(after, root, n);
      SameView(before, after, root + [n], root + [n]);
      SameView(before, after, root + [n], FileOf(n));
      SameView(before, after, root + [n], ChecksumOf(FileOf(n)));
    }

    /** What a load that returned no error leaves: `before` and `after` are the trees, `index` the
        names; `calm` says that no call failed on the way. */
    ghost predicate Loaded(before: Disk, after: Disk, index: seq<Name>, calm: bool) {
      && Framed(before, after, root) && KeptOrGone(before, after, root)
      && Distinct(index) && |index| <= NUM_VERSIONS_TO_CACHE && NewestFirst(index)
      && Children(after, root) <= Names(index) <= Children(before, root)
      && SoundEntries(after) == Children(after, root)
      && (|Children(before, root)| <= NUM_VERSIONS_TO_CACHE ==> Names(index) == Children(before, root))
      && (calm ==>
            && Evicts(host.older, Children(before, root), SoundEntries(before), Children(after, root))
            && (|Children(before, root)| > NUM_VERSIONS_TO_CACHE ==> Names(index) == Children(after, root)))
    }

    /** Nothing corrupt and nothing to evict. */
    ghost predicate Tidy(d: Disk) {
      SoundEntries(d) == Children(d, root) && |Children(d, root)| <= NUM_VERSIONS_TO_CACHE
    }

    ghost predicate NewestFirst(index: seq<Name>) {
      forall i, j | 0 <= i < j < |index| :: !host.older(index[i], index[j])
    }

    method ValidateFile(path: Path) returns (good: bool)
      modifies host`faults
      ensures host.faults >= old(host.faults)
      ensures good ==> IsFile(host.disk, path)
      ensures !good && host.faults == old(host.faults) ==> !IsFile(host.disk, path)
    {
      var ok, found := host.Exists(path);
      if !ok || !found { return false; }
      var dir;
      ok, dir := host.StatDir(path);
      good := ok && !dir;
    }

    method ValidateFilehash(path: Path) returns (good: bool)
      modifies host`faults
      ensures host.faults >= old(host.faults)
      ensures good ==> GoodPair(host.disk, path)
      ensures !good && host.faults == old(host.faults) ==> !GoodPair(host.disk, path)
      ensures && host.faults == old(host.faults) && IsFile(host.disk, path) && IsFile(host.disk, ChecksumOf(path))
              && Text.Bare(host.hash(host.disk[path].data), '\n') ==>
                (good <==> Holds(host.disk[ChecksumOf(path)].data, host.hash(host.disk[path].data)))
    {
      if IsFile(host.disk, path) && IsFile(host.disk, ChecksumOf(path)) && Text.Bare(host.hash(host.disk[path].data), '\n') {
        GoodPairIff(host.disk, path);
      }
      var ok, data := host.ReadFile(path);
      if !ok { return false; }
      var checksum;
      ok, checksum := host.ReadFile(ChecksumOf(path));
      good := ok && host.hash(data) == Text.Trim(checksum, '\n');
    }

    method ValidateVersion(version: Name) returns (good: bool)
      requires Valid()
      modifies host`faults
      ensures host.faults >= old(host.faults)
      ensures good ==> Sound(host.disk, version)
      ensures !good && host.faults == old(host.faults) ==> !Sound(host.disk, version)
    {
      if host.parse(version).None? { return false; }
      var ok, found := host.Exists(JoinPath(root, version));
      if !ok || !found { return false; }
      var dir;
      ok, dir := host.StatDir(JoinPath(root, version));
      if !ok || !dir { return false; }
      good := ValidateFile(FileOf(version));
      if !good { return; }
      good := ValidateFile(ChecksumOf(FileOf(version)));
      if !good { return; }
      good := ValidateFilehash(FileOf(version));
    }

    /** `append`: a new backing array with one more name. */
    static method Append(a: array<Name>, n: Name) returns (b: array<Name>)
      ensures fresh(b) && b[..] == a[..] + [n]
    {
      b := new Name[a.Length + 1];
      forall i | 0 <= i < a.Length { b[i] := a[i]; }
      b[a.Length] := n;
    }

    method SortVersions()
      requires Valid()
      modifies versions
      ensures Valid() && multiset(Index()) == multiset(old(Index())) && NewestFirst(Index())
      ensures Names(Index()) == Names(old(Index()))
    {
      ghost var was := Index();
      var newer: Order := (a, b) => host.older(b, a);
      assert WeakOrder(newer);
      if versions.Length > 1 {
        SortSlice(versions, newer);
      }
      PermutedDistinct(was, Index());
      PermutedMembers(was, Index());
      forall i, j | 0 <= i < j < |Index()| ensures !host.older(Index()[i], Index()[j]) {
        assert !newer(Index()[j], Index()[i]);
      }
    }

    method Get(version: Name) returns (path: Option<Path>)
      ensures path == if version in Index() then Some(FileOf(version)) else None
    {
      for i := 0 to versions.Length
        invariant version !in versions[..i]
      {
        if versions[i] == version { return Some(FileOf(version)); }
      }
      return None;
    }

    method List() returns (slice: array<Name>)
      ensures slice == versions
    {
      slice := versions;
    }

    /** Half-way through a load: the names in `done` have been looked at, the others not. */
    ghost predicate Scanned(was: Disk, now: Disk, done: set<Name>, calm: bool) {
      && Framed(was, now, root) && KeptOrGone(was, now, root)
      && (forall n | n !in done :: n == "" || View(now, root + [n]) == View(was, root + [n]))
      && (forall n | n in done && n in Children(now, root) :: Sound(now, n))
      && (calm ==> forall n | n in done && Sound(was, n) :: View(now, root + [n]) == View(was, root + [n]))
    }

    lemma DropOne(mid: Disk, n: Name, m: Name)
      requires n != "" && m != ""
      requires Framed(mid, Without(mid, root + [n]), root + [n])
      ensures View(Without(mid, root + [n]), root + [m]) == if m == n then map[] else View(mid, root + [m])
    {
      if m != n { SiblingsApart(root, m, n); }
    }

    lemma ScanDrop(was: Disk, mid: Disk, now: Disk, done: set<Name>, n: Name, calm: bool)
      requires Scanned(was, mid, done, calm) && n != "" && "" !in done && n !in done
      requires calm ==> !Sound(mid, n)
      requires now == Without(mid, root + [n]) && Framed(mid, now, root + [n])
      ensures Scanned(was, now, done + {n}, calm)
    {
      FramedWithin(mid, now, root, root + [n]);
      FramedTwice(was, mid, now, root);
      SoundByView(was, mid, n);
      forall m | m != "" ensures View(now, root + [m]) == if m == n then map[] else View(mid, root + [m]) {
        DropOne(mid, n, m);
      }
      forall m | m in done + {n} && m in Children(now, root) ensures Sound(now, m) {
        ChildrenMembers(now, root, m);
        assert m != n by { assert root + [m] in View(now, root + [m]); }
        SoundByView(mid, now, m);
      }
    }

    /** The corrupt entries are gone, and with no failing call only those. */
    ghost predicate Swept(was: Disk, now: Disk, calm: bool) {
      && Framed(was, now, root) && KeptOrGone(was, now, root)
      && SoundEntries(now) == Children(now, root) <= SoundEntries(was)
      && (calm ==> SoundEntries(was) == Children(now, root))
    }

    lemma ScanEnd(was: Disk, now: Disk, calm: bool)
      requires Scanned(was, now, Children(was, root), calm)
      ensures Swept(was, now, calm)
    {
      forall n | n in Children(now, root) ensures n in SoundEntries(now) && n in SoundEntries(was) {
        GoneOrSame(was, now, n);
        SoundByView(was, now, n);
      }
      if calm {
        forall n | n in SoundEntries(was) ensures n in Children(now, root) {
          ChildrenMembers(was, root, n);
          SoundByView(was, now, n);
        }
      }
    }

    lemma GoneOrSame(was: Disk, now: Disk, n: Name)
      requires KeptOrGone(was, now, root) && n in Children(now, root)
      ensures View(now, root + [n]) == View(was, root + [n]) && n in Children(was, root)
    {
      ChildrenMembers(now, root, n);
      ChildrenMembers(was, root, n);
      assert root + [n] in View(now, root + [n]);
      SameView(was, now, root + [n], root + [n]);
    }

    /** One entry of the directory listing: deleted when it does not pass validation. */
    method PurgeIfCorrupt(n: Name, ghost was: Disk, ghost done: set<Name>, ghost faults: nat)
      returns (ok: bool)
      requires Valid() && host.faults >= faults && n != "" && "" !in done && n !in done
      requires Scanned(was, host.disk, done, host.faults == faults)
      modifies host`disk, host`faults
      ensures host.faults >= old(host.faults)
      ensures !ok ==> host.faults > old(host.faults)
      ensures ok ==> Scanned(was, host.disk, done + {n}, host.faults == faults)
      ensures Framed(was, host.disk, root)
      ensures host.faults == faults && Sound(was, n) ==> host.disk == old(host.disk)
    {
      SoundByView(was, host.disk, n);
      var good := ValidateVersion(n);
      if good {
        return true;
      }
      ghost var mid := host.disk;
      ghost var calm := host.faults == faults;
      ok := host.RemoveAll(JoinPath(root, n));
      FramedWithin(mid, host.disk, root, root + [n]);
      FramedTwice(was, mid, host.disk, root);
      if ok {
        ScanDrop(was, mid, host.disk, done, n, calm);
      }
    }

    /** The first pass of `load`: entries that fail validation are deleted, but their names are
        put in the index all the same. */
    method Scan() returns (ok: bool)
      requires Valid()
      modifies this`versions, host`disk, host`faults
      ensures Valid() && (fresh(versions) || versions == old(versions))
      ensures host.faults >= old(host.faults)
      ensures !ok ==> host.faults > old(host.faults)
      ensures Framed(old(host.disk), host.disk, root)
      ensures ok ==> fresh(versions) && Names(Index()) == Children(old(host.disk), root)
      ensures ok ==> Swept(old(host.disk), host.disk, host.faults == old(host.faults))
      ensures ok && host.faults == old(host.faults) && SoundEntries(old(host.disk)) == Children(old(host.disk), root) ==>
                host.disk == old(host.disk)
    {
      var entries;
      ok, entries := host.ReadDir(root);
      if !ok { return; }
      ghost var was := host.disk;
      ok := Purge(entries);
      if ok {
        ScanEnd(was, host.disk, host.faults == old(host.faults));
      }
    }

    /** The loop of `load` over the directory listing. */
    method Purge(entries: seq<Name>) returns (ok: bool)
      requires Valid() && Distinct(entries) && "" !in Names(entries)
      modifies this`versions, host`disk, host`faults
      ensures Valid() && fresh(versions) && host.faults >= old(host.faults)
      ensures !ok ==> host.faults > old(host.faults)
      ensures Framed(old(host.disk), host.disk, root)
      ensures ok ==> Index() == entries
      ensures ok ==> Scanned(old(host.disk), host.disk, Names(entries), host.faults == old(host.faults))
      ensures ok && host.faults == old(host.faults) && (forall n | n in Names(entries) :: Sound(old(host.disk), n)) ==>
                host.disk == old(host.disk)
    {
      versions, ok := new Name[0], true;
      for i := 0 to |entries|
        invariant fresh(versions) && versions[..] == entries[..i]
        invariant host.faults >= old(host.faults)
        invariant Scanned(old(host.disk), host.disk, Names(entries[..i]), host.faults == old(host.faults))
        invariant host.faults == old(host.faults) && (forall n | n in Names(entries) :: Sound(old(host.disk), n)) ==>
                    host.disk == old(host.disk)
      {
        EntryNames(entries, i);
        ok := PurgeIfCorrupt(entries[i], old(host.disk), Names(entries[..i]), old(host.faults));
        if !ok { return; }
        versions := Append(versions, entries[i]);
      }
      assert entries[..|entries|] == entries;
    }

    static lemma EntryNames(entries: seq<Name>, i: nat)
      requires Distinct(entries) && i < |entries| && "" !in Names(entries)
      ensures entries[i] !in Names(entries[..i]) && entries[i] != "" && "" !in Names(entries[..i])
      ensures Names(entries[..i + 1]) == Names(entries[..i]) + {entries[i]}
      ensures entries[..i + 1] == entries[..i] + [entries[i]]
    {
      assert entries[i] in Names(entries);
      forall n | n in entries[..i] ensures n in Names(entries) && n != entries[i] { }
    }

    lemma ChildrenWithout(d: Disk, n: Name)
      ensures Children(Without(d, JoinPath(root, n)), root) == if n == "" then {} else Children(d, root) - {n}
    {
      var cut := Without(d, JoinPath(root, n));
      forall m
        ensures m in Children(d, root) <==> m != "" && root + [m] in d
        ensures m in Children(cut, root) <==> m != "" && root + [m] in cut
      {
        ChildrenMembers(d, root, m);
        ChildrenMembers(cut, root, m);
      }
      if n != "" {
        forall m | m != n ensures !Near(root + [n], root + [m]) {
          SiblingsApart(root, n, m);
        }
      }
    }

    /** A load that evicts is a pass over the directory, one removal, and a load of the rest. */
    lemma LoadedAgain(was: Disk, mid: Disk, after: Disk, oldest: Name, index: seq<Name>, calmBefore: bool, calmAfter: bool)
      requires oldest != ""
      requires Swept(was, mid, calmBefore)
      requires Oldest(host.older, Children(was, root), oldest)
      requires |Children(was, root)| > NUM_VERSIONS_TO_CACHE
      requires Loaded(Without(mid, JoinPath(root, oldest)), after, index, calmAfter)
      ensures Loaded(was, after, index, calmBefore && calmAfter)
    {
      var cut := Without(mid, root + [oldest]);
      FramedWithout(mid, root + [oldest]);
      FramedWithin(mid, cut, root, root + [oldest]);
      FramedTwice(was, mid, cut, root);
      FramedTwice(was, cut, after, root);
      ChildrenWithout(mid, oldest);
      forall n | n != ""
        ensures View(cut, root + [n]) == View(mid, root + [n]) || View(cut, root + [n]) == map[]
      {
        DropOne(mid, oldest, n);
      }
      if calmBefore && calmAfter {
        SoundWithout(mid, oldest);
        EvictsAgain(host.older, Children(was, root), SoundEntries(was), oldest, Children(after, root));
      }
    }

    lemma LoadedOnce(was: Disk, mid: Disk, index: seq<Name>, calm: bool)
      requires Swept(was, mid, calm) && Names(index) == Children(was, root)
      requires Distinct(index) && NewestFirst(index) && |index| <= NUM_VERSIONS_TO_CACHE
      ensures Loaded(was, mid, index, calm)
    {
      DistinctSize(index);
    }

    lemma SoundWithout(mid: Disk, n: Name)
      requires SoundEntries(mid) == Children(mid, root) && n != ""
      ensures SoundEntries(Without(mid, root + [n])) == Children(Without(mid, root + [n]), root)
    {
      FramedWithout(mid, root + [n]);
      ChildrenWithout(mid, n);
      forall m | m in Children(mid, root) - {n} ensures Sound(Without(mid, root + [n]), m) {
        ChildrenMembers(mid, root, m);
        DropOne(mid, n, m);
        SoundByView(mid, Without(mid, root + [n]), m);
      }
    }

    /** `load` up to the eviction: the pass over the directory, then the sort. */
    method Refresh() returns (ok: bool)
      requires Valid()
      modifies this`versions, host`disk, host`faults
      ensures Valid() && (fresh(versions) || versions == old(versions))
      ensures host.faults >= old(host.faults)
      ensures !ok ==> host.faults > old(host.faults)
      ensures Framed(old(host.disk), host.disk, root)
      ensures ok ==> fresh(versions) && Names(Index()) == Children(old(host.disk), root)
      ensures ok ==> NewestFirst(Index()) && |Index()| == |Children(old(host.disk), root)|
      ensures ok ==> Swept(old(host.disk), host.disk, host.faults == old(host.faults))
      ensures ok && host.faults == old(host.faults) && SoundEntries(old(host.disk)) == Children(old(host.disk), root) ==>
                host.disk == old(host.disk)
    {
      ok := Scan();
      if !ok { return; }
      SortVersions();
      DistinctSize(Index());
    }

    /** `load`: terminates whatever the directory holds, because every nested load finds fewer
        entries than the one before. */
    method Load() returns (ok: bool)
      requires Valid()
      modifies this`versions, host`disk, host`faults
      ensures Valid() && (fresh(versions) || versions == old(versions))
      ensures host.faults >= old(host.faults)
      ensures !ok ==> host.faults > old(host.faults)
      ensures Framed(old(host.disk), host.disk, root)
      ensures ok ==> fresh(versions)
      ensures ok ==> Loaded(old(host.disk), host.disk, Index(), host.faults == old(host.faults))
      ensures ok && host.faults == old(host.faults) && Tidy(old(host.disk)) ==> host.disk == old(host.disk)
      decreases |Children(host.disk, root)|, 0
    {
      ok := Refresh();
      if !ok { return; }
      ghost var mid := host.disk;
      ghost var faults := host.faults;
      if versions.Length > NUM_VERSIONS_TO_CACHE {
        var oldest := versions[versions.Length - 1];
        LastIsOldest(Index(), Children(old(host.disk), root), oldest);
        ChildrenMembers(old(host.disk), root, oldest);
        SubsetSize(Children(mid, root) - {oldest}, Children(old(host.disk), root) - {oldest});
        ok := Remove(oldest);
        FramedTwice(old(host.disk), mid, host.disk, root);
        if ok {
          LoadedAgain(old(host.disk), mid, host.disk, oldest, Index(), faults == old(host.faults), host.faults == faults);
        }
      } else {
        LoadedOnce(old(host.disk), mid, Index(), host.faults == old(host.faults));
      }
    }

    lemma LastIsOldest(index: seq<Name>, all: set<Name>, last: Name)
      requires NewestFirst(index) && WeakOrder(host.older) && Names(index) == all
      requires index != [] && index[|index| - 1] == last
      ensures Oldest(host.older, all, last)
    {
      assert last in Names(index);
      forall n | n in all ensures !host.older(n, last) {
        var i :| 0 <= i < |index| && index[i] == n;
      }
    }

    method Remove(version: Name) returns (ok: bool)
      requires Valid()
      modifies this`versions, host`disk, host`faults
      ensures Valid() && (fresh(versions) || versions == old(versions))
      ensures host.faults >= old(host.faults)
      ensures !ok ==> host.faults > old(host.faults)
      ensures Framed(old(host.disk), host.disk, root)
      ensures version !in old(Index()) ==> ok && host.disk == old(host.disk) && versions == old(versions)
      ensures ok && version in old(Index()) ==> fresh(versions)
      ensures ok && version in old(Index()) ==>
                Loaded(Without(old(host.disk), JoinPath(root, version)), host.disk, Index(), host.faults == old(host.faults))
      decreases |Children(host.disk, root) - {version}|, 1
    {
      var path := Get(version);
      if path.None? { return true; }
      ghost var was := host.disk;
      ok := host.RemoveAll(JoinPath(root, version));
      FramedWithin(was, host.disk, root, JoinPath(root, version));
      if !ok { return; }
      ghost var cut := host.disk;
      ChildrenWithout(was, version);
      ok := Load();
      FramedTwice(was, cut, host.disk, root);
    }

    method Init() returns (ok: bool)
      requires Valid()
      modifies this`versions, host`disk, host`faults
      ensures Valid() && (fresh(versions) || versions == old(versions))
      ensures host.faults >= old(host.faults)
      ensures !ok ==> host.faults > old(host.faults)
      ensures Framed(old(host.disk), host.disk, root)
      ensures ok ==> fresh(versions)
      ensures ok ==> Loaded(old(host.disk), host.disk, Index(), host.faults == old(host.faults))
    {
      ghost var before := host.disk;
      ok := host.MkdirAll(root);
      if !ok { return; }
      ghost var was := host.disk;
      ok := Load();
      FramedTwice(before, was, host.disk, root);
      if ok {
        LoadedAfterMkdir(before, was, host.disk, Index(), host.faults == old(host.faults));
      }
    }

    /** Creating the root changes none of its entries. */
    lemma LoadedAfterMkdir(before: Disk, was: Disk, after: Disk, index: seq<Name>, calm: bool)
      requires Framed(before, was, root)
      requires forall q | q in before :: q in was && was[q] == before[q]
      requires forall q | q in was :: q in before || q <= root
      requires Loaded(was, after, index, calm)
      ensures Loaded(before, after, index, calm)
    {
      FramedTwice(before, was, after, root);
      forall n | n != "" ensures View(before, root + [n]) == View(was, root + [n]) { }
      forall n | n != ""
        ensures Sound(before, n) == Sound(was, n)
        ensures n in Children(before, root) <==> n in Children(was, root)
      {
        SoundByView(before, was, n);
      }
      assert Children(before, root) == Children(was, root);
      assert SoundEntries(before) == SoundEntries(was);
    }

    /** The index agrees with the disk: what a load leaves is tidy, so (by the contract of Load)
        a second load without a failing call leaves the disk alone, and it makes the index exactly
        the entries on disk. */
    lemma ReloadIsStable(before: Disk, once: Disk, index: seq<Name>, calm: bool, twice: Disk, again: seq<Name>)
      requires Loaded(before, once, index, calm) && Loaded(once, twice, again, true)
      ensures Tidy(once)
      ensures Names(again) == Children(once, root) == Children(twice, root)
      ensures Distinct(again) && NewestFirst(again) && forall n | n in again :: Sound(twice, n)
    {
      DistinctSize(index);
      SubsetSize(Children(once, root), Names(index));
      assert forall n | n in again :: n in Names(again);
    }

    /** Because a corrupt entry's name stays in the index, the index agrees with the disk after a
        calm load exactly when nothing was corrupt or the load had to evict. */
    lemma IndexAgreesIff(before: Disk, after: Disk, index: seq<Name>)
      requires Loaded(before, after, index, true)
      ensures Names(index) == Children(after, root) <==>
                SoundEntries(before) == Children(before, root) || |Children(before, root)| > NUM_VERSIONS_TO_CACHE
    {
    }

    /** A name that is only in the index has no file: a later installation of it cannot succeed. */
    lemma PhantomHasNoFile(before: Disk, after: Disk, index: seq<Name>, calm: bool, n: Name)
      requires Loaded(before, after, index, calm) && n in index && n !in Children(after, root)
      ensures FileOf(n) !in after
    {
      assert n in Names(index);
      ChildrenMembers(before, root, n);
      ChildrenMembers(after, root, n);
      assert root + [n] in View(before, root + [n]) && root + [n] !in View(after, root + [n]);
      assert FileOf(n) !in View(after, root + [n]);
    }

    /** The names a calm load leaves in the index although it deleted their entries. */
    ghost function Hollow(d: Disk): set<Name> {
      if |Children(d, root)| <= NUM_VERSIONS_TO_CACHE then Children(d, root) - SoundEntries(d) else {}
    }

    /** After a calm load a name of the index has its file unless it was corrupt and at most five
        names were found. */
    lemma FileUnlessHollow(before: Disk, after: Disk, index: seq<Name>, n: Name)
      requires Loaded(before, after, index, true) && n in index
      ensures IsFile(after, FileOf(n)) <==> n !in Hollow(before)
      ensures FileOf(n) !in after <==> n in Hollow(before)
    {
      assert n in Names(index);
      if n in Children(after, root) {
        assert n in SoundEntries(after);
      } else {
        PhantomHasNoFile(before, after, index, true, n);
      }
    }

    /** A sound version survives every calm load, unless more than five names were found; and
        then nothing older than it is kept either. */
    lemma SoundKeptUnlessRotated(before: Disk, after: Disk, index: seq<Name>, n: Name)
      requires Loaded(before, after, index, true)
      requires n in SoundEntries(before) && n !in Children(after, root)
      ensures |Children(before, root)| > NUM_VERSIONS_TO_CACHE
      ensures forall m | m in Children(after, root) :: !host.older(m, n)
    {
      KeptAreNewest(host.older, Children(before, root), SoundEntries(before), Children(after, root));
    }

    /** `Add`: copies a file and its checksum file into a new version directory. A failing copy of
        the checksum file is not reported, so only a calm run promises a version that will pass
        validation. A file that already lies where it is to be copied to is emptied. Nothing is
        evicted, and the name need not parse. */
    method Add(path: Path, version: Name) returns (ok: bool)
      requires Valid()
      modifies this`versions, host`disk, host`faults
      ensures Valid() && host.faults >= old(host.faults)
      ensures Framed(old(host.disk), host.disk, JoinPath(root, version))
      ensures !ok ==> versions == old(versions)
      ensures !ok && host.faults == old(host.faults) ==> host.disk == old(host.disk)
      ensures ok ==> version !in old(Index()) && fresh(versions) && NewestFirst(Index())
      ensures ok ==> multiset(Index()) == multiset(old(Index())) + multiset{version}
      ensures ok ==> GoodPair(old(host.disk), path) && IsFile(host.disk, FileOf(version))
      ensures ok ==> host.disk[FileOf(version)] == if path == FileOf(version) then File("") else old(host.disk)[path]
      ensures ok && host.faults == old(host.faults) && host.parse(version).Some? && Copyable(path, version) ==>
                Sound(host.disk, version)
      ensures OtherFilesKept(old(host.disk), host.disk, version)
      ensures host.faults == old(host.faults) && version !in old(Index()) && GoodPair(old(host.disk), path) ==> ok
    {
      var v := Get(version);
      if v.Some? { return false; }
      ok := ValidateFile(path);
      if !ok { return; }
      ok := ValidateFile(ChecksumOf(path));
      if !ok { return; }
      ok := ValidateFilehash(path);
      if !ok { return; }
      ok := CopyPair(path, version);
      if !ok { return; }
      ghost var was := Index();
      versions := Append(versions, version);
      AppendDistinct(was, version);
      SortVersions();
    }

    static lemma AppendDistinct(s: seq<Name>, n: Name)
      requires Distinct(s) && n !in s
      ensures Distinct(s + [n]) && multiset(s + [n]) == multiset(s) + multiset{n}
    {
    }

    /** Neither file is overwritten before it is copied. */
    predicate Copyable(path: Path, version: Name) {
      path != FileOf(version) && ChecksumOf(path) != FileOf(version)
    }

    lemma ChecksumsDiffer(path: Path, version: Name)
      requires filename != "" && path != FileOf(version)
      ensures ChecksumOf(path) != ChecksumOf(FileOf(version))
    {
      var file := FileOf(version);
      var c, d := ChecksumOf(path), ChecksumOf(file);
      var last := if path == [] then "" else path[|path| - 1];
      assert c[|c| - 1] == last + ("." + CHECKSUM_POSTFIX) && d[|d| - 1] == filename + ("." + CHECKSUM_POSTFIX);
      assert last == c[|c| - 1][..|c[|c| - 1]| - 7] && filename == d[|d| - 1][..|d[|d| - 1]| - 7];
      assert path == if path == [] then [] else c[..|c| - 1] + [last];
      assert file == d[..|d| - 1] + [filename];
    }

    lemma FilesDiffer(n: Name, version: Name)
      requires n != version
      ensures FileOf(version) != ChecksumOf(FileOf(version))
      ensures FileOf(n) !in {FileOf(version), ChecksumOf(FileOf(version))}
    {
      var a, b, c := FileOf(n), FileOf(version), ChecksumOf(FileOf(version));
      assert a[|a| - 1] == b[|b| - 1] == filename && c[|c| - 1] == filename + "." + CHECKSUM_POSTFIX;
      if n != "" && version != "" {
        assert a[|root|] == n && b[|root|] == version;
      }
    }

    /** The files of all other versions are as they were. */
    ghost predicate OtherFilesKept(before: Disk, after: Disk, version: Name) {
      forall n | n != version :: SameFile(before, after, FileOf(n))
    }

    lemma WrittenFor(before: Disk, after: Disk, p: Path, version: Name)
      requires p in {FileOf(version), ChecksumOf(FileOf(version))}
      requires after == before || (p in after && after == before[p := after[p]])
      ensures OtherFilesKept(before, after, version)
    {
      forall n | n != version ensures FileOf(n) != p { FilesDiffer(n, version); }
    }

    /** The part of `Add` that writes: the directory, the file, the checksum file. */
    method CopyPair(path: Path, version: Name) returns (ok: bool)
      requires Valid() && GoodPair(host.disk, path)
      modifies host`disk, host`faults
      ensures host.faults >= old(host.faults)
      ensures Framed(old(host.disk), host.disk, JoinPath(root, version))
      ensures OtherFilesKept(old(host.disk), host.disk, version)
      ensures ok ==> IsFile(host.disk, FileOf(version))
      ensures ok ==> host.disk[FileOf(version)] == if path == FileOf(version) then File("") else old(host.disk)[path]
      ensures host.faults == old(host.faults) ==> ok && IsDir(host.disk, JoinPath(root, version))
      ensures host.faults == old(host.faults) && Copyable(path, version) ==> GoodPair(host.disk, FileOf(version))
    {
      ghost var d0 := host.disk;
      ok := host.MkdirAll(JoinPath(root, version));
      if !ok { return; }
      ghost var d1 := host.disk;
      ok := CopyIn(FileOf(version), path, version);
      FramedTwice(d0, d1, host.disk, JoinPath(root, version));
      if !ok { return; }
      ghost var d2 := host.disk;
      FilesDiffer(version + "x", version);
      var copied := CopyIn(ChecksumOf(FileOf(version)), ChecksumOf(path), version);
      FramedTwice(d0, d2, host.disk, JoinPath(root, version));
      if path != FileOf(version) { ChecksumsDiffer(path, version); }
    }

    /** One copy into a version directory. */
    method CopyIn(dst: Path, src: Path, version: Name) returns (ok: bool)
      requires dst in {FileOf(version), ChecksumOf(FileOf(version))}
      modifies host`disk, host`faults
      ensures old(host.faults) <= host.faults <= old(host.faults) + 1 && (ok ==> host.faults == old(host.faults))
      ensures !ok && host.faults == old(host.faults) ==> !IsFile(old(host.disk), src)
      ensures Framed(old(host.disk), host.disk, JoinPath(root, version))
      ensures OtherFilesKept(old(host.disk), host.disk, version)
      ensures ok ==> IsFile(old(host.disk), src)
                     && host.disk == old(host.disk)[dst := if dst == src then File("") else old(host.disk)[src]]
      ensures !ok ==> host.disk == old(host.disk) || exists left :: host.disk == old(host.disk)[dst := File(left)]
    {
      ghost var was := host.disk;
      ok := host.CopyFile(dst, src);
      FramedWithin(was, host.disk, JoinPath(root, version), dst);
      WrittenFor(was, host.disk, dst, version);
    }
  }
}
