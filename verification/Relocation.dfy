/**
  Moving a destination's store to another folder, or letting an existing secondary store take over
  as main storage: pause, copy and verify, save the configuration, restart, and only then remove.
 */
module Relocation {
  import opened Common
  import opened Model
  import opened RelPaths
  import opened Trees

  // ----- Stores in a file system -----

  function FileAt(fs: Tree, p: Path): Option<bytes> {
    if p in fs && fs[p].FileNode? then Some(fs[p].content) else None
  }

  /** The file of the store at `root` under a relative path. */
  function Item(fs: Tree, root: Path, rel: Path): Option<bytes> {
    FileAt(fs, root + rel)
  }

  /** The two stores hold the same files. */
  ghost predicate SameStore(a: Tree, ra: Path, b: Tree, rb: Path) {
    forall rel :: Item(a, ra, rel) == Item(b, rb, rel)
  }

  /** No file outside `root` has changed. */
  ghost predicate OnlyUnder(fs: Tree, fs0: Tree, root: Path) {
    forall p :: !Above(root, p) ==> FileAt(fs, p) == FileAt(fs0, p)
  }

  lemma AboveJoin(root: Path, rel: Path)
    ensures Above(root, root + rel) && (root + rel)[|root|..] == rel
  {
  }

  lemma JoinBack(root: Path, p: Path)
    requires Above(root, p)
    ensures root + p[|root|..] == p
  {
  }

  /** Neither path is inside the other. */
  predicate Apart(a: Path, b: Path) {
    !Above(a, b) && !Above(b, a)
  }

  lemma ApartStores(a: Path, b: Path, rel: Path)
    requires Apart(a, b)
    ensures !Above(a, b + rel)
  {
  }

  // ----- Finding every file -----

  function Children(fs: Tree, d: Path): set<Path> {
    set p | p in fs && p != [] && Parent(p) == d
  }

  lemma DistinctAppend<T>(a: seq<T>, b: seq<T>)
    requires Distinct(a) && Distinct(b) && forall x :: x in a ==> x !in b
    ensures Distinct(a + b)
  {
    forall i, j | 0 <= i < j < |a + b| ensures (a + b)[i] != (a + b)[j] {
      if i < |a| <= j {
        assert a[i] in a && b[j - |a|] in b;
      }
    }
  }

  /** Directories that are pending or read lie under the root and were found in a directory that was read. */
  ghost predicate Known(fs: Tree, root: Path, pending: seq<Path>, visited: set<Path>) {
    && (forall d :: d in pending || d in visited ==> d in fs && fs[d].DirNode? && Above(root, d))
    && (forall d :: d in pending ==> d !in visited)
    && (root in visited || root in pending)
    && (forall d :: (d in pending || d in visited) && d != root ==> d != [] && Parent(d) in visited)
  }

  /** Everything in a directory that was read has been noted. */
  ghost predicate Noted(fs: Tree, pending: seq<Path>, visited: set<Path>, files: seq<Path>) {
    && (forall p {:trigger Parent(p)} :: p in fs && p != [] && Parent(p) in visited ==>
          !fs[p].LinkNode? && (fs[p].DirNode? ==> p in pending || p in visited) && (fs[p].FileNode? ==> p in files))
    && (forall p :: p in files ==> p in fs && fs[p].FileNode? && p != [] && Parent(p) in visited)
  }

  ghost predicate Walk(fs: Tree, root: Path, pending: seq<Path>, visited: set<Path>, files: seq<Path>) {
    WellFormed(fs) && Distinct(pending) && Distinct(files) && Known(fs, root, pending, visited) &&
      Noted(fs, pending, visited, files)
  }

  /** Once nothing is pending, every directory under the root has been read. */
  lemma {:induction false} WalkReaches(fs: Tree, root: Path, visited: set<Path>, files: seq<Path>, p: Path)
    requires Walk(fs, root, [], visited, files) && p in fs && Above(root, p)
    ensures !fs[p].LinkNode? && (fs[p].DirNode? ==> p in visited) && (fs[p].FileNode? ==> p in files)
    decreases |p|
  {
    if p != root {
      PrefixOfSnoc(root, p);
      WalkReaches(fs, root, visited, files, Parent(p));
    }
  }

  /** The files list is exactly the regular files below the root, and there are no links. */
  ghost predicate AllFiles(fs: Tree, root: Path, files: seq<Path>) {
    && (forall p :: p in fs && Above(root, p) ==> !fs[p].LinkNode?)
    && (forall p :: p in files <==> p in fs && Above(root, p) && fs[p].FileNode?)
    && Distinct(files)
  }

  /** Reading one directory: every entry is noted, a link refuses the whole store. */
  method ReadDirectory(fs: Tree, d: Path) returns (ok: bool, dirs: seq<Path>, found: seq<Path>)
    ensures !ok ==> exists p :: p in Children(fs, d) && fs[p].LinkNode?
    ensures ok ==> forall p :: p in Children(fs, d) ==> !fs[p].LinkNode?
    ensures ok ==> forall p :: p in dirs <==> p in Children(fs, d) && fs[p].DirNode?
    ensures ok ==> forall p :: p in found <==> p in Children(fs, d) && fs[p].FileNode?
    ensures Distinct(dirs)
    ensures Distinct(found)
  {
    dirs, found := [], [];
    var todo := Children(fs, d);
    while todo != {}
      invariant todo <= Children(fs, d)
      invariant forall p :: p in dirs <==> p in Children(fs, d) - todo && fs[p].DirNode?
      invariant forall p :: p in found <==> p in Children(fs, d) - todo && fs[p].FileNode?
      invariant forall p :: p in Children(fs, d) - todo ==> !fs[p].LinkNode?
      invariant Distinct(dirs)
      invariant Distinct(found)
      decreases |todo|
    {
      var p :| p in todo;
      todo := todo - {p};
      match fs[p] {
        case LinkNode => return false, dirs, found;
        case DirNode => dirs := dirs + [p];
        case FileNode(_, _) => found := found + [p];
      }
    }
    ok := true;
  }

  /** `dirs` and `found` are what reading `d` gives. */
  ghost predicate Listing(fs: Tree, d: Path, dirs: seq<Path>, found: seq<Path>) {
    && (forall p :: p in Children(fs, d) ==> !fs[p].LinkNode?)
    && (forall p :: p in dirs <==> p in Children(fs, d) && fs[p].DirNode?)
    && (forall p :: p in found <==> p in Children(fs, d) && fs[p].FileNode?)
    && Distinct(dirs) && Distinct(found)
  }

  lemma Popped<T>(pending: seq<T>, dirs: seq<T>)
    requires Distinct(pending) && pending != []
    ensures var n := |pending| - 1;
            && Distinct(pending[..n])
            && (forall x :: x in pending[..n] <==> x in pending && x != pending[n])
            && (forall x :: x in pending[..n] + dirs <==> (x in pending && x != pending[n]) || x in dirs)
  {
  }

  lemma WalkStep(fs: Tree, root: Path, pending: seq<Path>, visited: set<Path>, files: seq<Path>, dirs: seq<Path>,
                 found: seq<Path>)
    requires Walk(fs, root, pending, visited, files) && pending != []
    requires Listing(fs, pending[|pending| - 1], dirs, found)
    ensures var n := |pending| - 1; Walk(fs, root, pending[..n] + dirs, visited + {pending[n]}, files + found)
  {
    var n := |pending| - 1;
    var d := pending[n];
    assert d in pending;
    Popped(pending, dirs);
    KnownStep(fs, root, pending, visited, d, dirs, found, pending[..n] + dirs);
    NotedStep(fs, pending, visited, files, d, dirs, found, pending[..n] + dirs);
    DistinctAppend(pending[..n], dirs);
    DistinctAppend(files, found);
  }

  lemma KnownStep(fs: Tree, root: Path, pending: seq<Path>, visited: set<Path>, d: Path,
                  dirs: seq<Path>, found: seq<Path>, next: seq<Path>)
    requires Known(fs, root, pending, visited) && d in pending && Listing(fs, d, dirs, found)
    requires forall x :: x in next <==> (x in pending && x != d) || x in dirs
    ensures Known(fs, root, next, visited + {d})
    ensures forall x :: x in dirs ==> x !in pending
  {
  }

  lemma NotedStep(fs: Tree, pending: seq<Path>, visited: set<Path>, files: seq<Path>, d: Path,
                  dirs: seq<Path>, found: seq<Path>, next: seq<Path>)
    requires Noted(fs, pending, visited, files) && d in pending && d !in visited && Listing(fs, d, dirs, found)
    requires forall x :: x in next <==> (x in pending && x != d) || x in dirs
    ensures Noted(fs, next, visited + {d}, files + found)
    ensures forall x :: x in files ==> x !in found
  {
  }

  lemma AboveChild(root: Path, x: Path, d: Path)
    requires x != [] && Parent(x) == d && Above(root, d)
    ensures Above(root, x) && x != root
  {
  }

  /** The worklist traversal of `copy_and_verify_store`. */
  method ListFiles(fs: Tree, root: Path) returns (r: Option<seq<Path>>)
    requires WellFormed(fs) && root in fs && fs[root].DirNode?
    ensures r.Some? ==> AllFiles(fs, root, r.value)
    ensures r.None? ==> exists p :: p in fs && Above(root, p) && fs[p].LinkNode?
  {
    var files: seq<Path> := [];
    var pending := [root];
    ghost var visited: set<Path> := {};
    while pending != []
      invariant Walk(fs, root, pending, visited, files)
      decreases fs.Keys - visited
    {
      var n := |pending| - 1;
      var d := pending[n];
      assert d in pending;
      var ok, dirs, found := ReadDirectory(fs, d);
      if !ok {
        var p :| p in Children(fs, d) && fs[p].LinkNode?;
        AboveChild(root, p, d);
        return None;
      }
      WalkStep(fs, root, pending, visited, files, dirs, found);
      pending, visited, files := pending[..n] + dirs, visited + {d}, files + found;
    }
    forall p | p in fs && Above(root, p)
      ensures !fs[p].LinkNode? && (fs[p].FileNode? ==> p in files)
    {
      WalkReaches(fs, root, visited, files, p);
    }
    forall p | p in files ensures Above(root, p) {
      PrefixOfSnoc(root, p);
    }
    r := Some(files);
  }

  // ----- Configurations -----

  datatype Destination = Destination(id: string, path: Path)

  datatype Watched = Watched(path: string, enabled: bool, destinationId: string)

  datatype Config = Config(backupRoot: Path, destinations: seq<Destination>, watched: seq<Watched>, safeMode: bool)

  /** The configuration with one destination at another path. */
  function Moved(cfg: Config, index: nat, path: Path): Config
    requires index < |cfg.destinations|
  {
    cfg.(destinations := cfg.destinations[index := cfg.destinations[index].(path := path)],
         backupRoot := if index == 0 then path else cfg.backupRoot)
  }

  /** `swap_main_with_secondary`, validation aside. */
  function Swapped(cfg: Config, secondary: nat): Config
    requires 0 < secondary < |cfg.destinations|
  {
    var (main, other) := (cfg.destinations[0], cfg.destinations[secondary]);
    cfg.(destinations := cfg.destinations[0 := main.(path := other.path)][secondary := other.(path := main.path)],
         backupRoot := other.path)
  }

  /** Swapping exchanges two paths and nothing else, and swapping again undoes it. */
  lemma SwapExchangesPaths(cfg: Config, secondary: nat)
    requires 0 < secondary < |cfg.destinations|
    ensures var next := Swapped(cfg, secondary);
            && |next.destinations| == |cfg.destinations|
            && (forall i :: 0 <= i < |cfg.destinations| ==> next.destinations[i].id == cfg.destinations[i].id)
            && (forall i :: 0 < i < |cfg.destinations| && i != secondary ==>
              next.destinations[i] == cfg.destinations[i])
            && next.destinations[0].path == next.backupRoot == cfg.destinations[secondary].path
            && next.destinations[secondary].path == cfg.destinations[0].path
            && next.watched == cfg.watched && next.safeMode == cfg.safeMode
            && Swapped(next, secondary) == cfg.(backupRoot := cfg.destinations[0].path)
  {
  }

  // ----- Checking a secondary store -----

  datatype ReadIndex = Missing | Broken | Found(versions: seq<VersionInfo>)

  /** What the check finds out about the stores. */
  datatype Probe = Probe(
    isDir: Path -> bool,
    index: (Path, string) -> ReadIndex,
    valid: Config -> bool,
    clean: Config -> bool)

  function NewestOf(versions: seq<VersionInfo>): Option<int> {
    if versions == [] then None
    else match NewestOf(versions[..|versions| - 1])
      case None => Some(versions[|versions| - 1].createdAtUnix)
      case Some(ts) => Some(if versions[|versions| - 1].createdAtUnix >= ts
        then versions[|versions| - 1].createdAtUnix else ts)
  }

  /** The newest time stamp occurs and none is later. */
  lemma {:induction false} NewestIsLatest(versions: seq<VersionInfo>)
    ensures NewestOf(versions).None? <==> versions == []
    ensures NewestOf(versions).Some? ==>
              && (exists v :: v in versions && v.createdAtUnix == NewestOf(versions).value)
              && (forall v :: v in versions ==> v.createdAtUnix <= NewestOf(versions).value)
  {
    if versions != [] {
      var n := |versions| - 1;
      NewestIsLatest(versions[..n]);
      assert versions == versions[..n] + [versions[n]];
      assert versions[n] in versions;
    }
  }

  method Newest(versions: seq<VersionInfo>) returns (ts: Option<int>)
    ensures ts == NewestOf(versions)
  {
    ts := None;
    for i := 0 to |versions|
      invariant ts == NewestOf(versions[..i])
    {
      assert versions[..i + 1][..i] == versions[..i];
      if ts.None? || versions[i].createdAtUnix >= ts.value {
        ts := Some(versions[i].createdAtUnix);
      }
    }
    assert versions[..|versions|] == versions;
  }

  function NewestIn(index: ReadIndex): Option<int> {
    if index.Found? then NewestOf(index.versions) else None
  }

  /** The candidate's newest version of a source is no older than the current one's. */
  predicate UpToDate(current: ReadIndex, candidate: ReadIndex) {
    && !current.Broken? && !candidate.Broken?
    && (NewestIn(current).Some? ==> NewestIn(candidate).Some? && NewestIn(candidate).value >= NewestIn(current).value)
  }

  predicate Relevant(cfg: Config, w: Watched)
    requires cfg.destinations != []
  {
    w.enabled && w.destinationId == cfg.destinations[0].id
  }

  /** The secondary store may become main storage. */
  predicate CanPromote(cfg: Config, secondary: nat, probe: Probe) {
    && 0 < secondary < |cfg.destinations|
    && var (main, other) := (cfg.destinations[0].path, cfg.destinations[secondary].path);
       && probe.isDir(main) && probe.isDir(other) && main != other
       && (forall i :: 0 <= i < |cfg.watched| && Relevant(cfg, cfg.watched[i]) ==>
             UpToDate(probe.index(main, cfg.watched[i].path), probe.index(other, cfg.watched[i].path)))
       && probe.valid(Swapped(cfg, secondary)) && probe.clean(Swapped(cfg, secondary))
  }

  /** For each version of the current index the candidate has one that is no older. */
  ghost predicate NothingNewer(current: ReadIndex, candidate: ReadIndex) {
    current.Found? ==> forall v :: v in current.versions ==>
      candidate.Found? && exists w :: w in candidate.versions && w.createdAtUnix >= v.createdAtUnix
  }

  lemma UpToDateIff(current: ReadIndex, candidate: ReadIndex)
    ensures UpToDate(current, candidate) <==>
            !current.Broken? && !candidate.Broken? && NothingNewer(current, candidate)
  {
    if current.Found? {
      NewestIsLatest(current.versions);
    }
    if candidate.Found? {
      NewestIsLatest(candidate.versions);
    }
  }

  /**
    What a promotion is checked for: both folders are there and differ, of every source that is
    backed up to main storage the secondary has a version no older than any main storage has, and
    the configuration with the two paths exchanged is valid and scrubs clean.
   */
  lemma CanPromoteIff(cfg: Config, secondary: nat, probe: Probe)
    requires 0 < secondary < |cfg.destinations|
    ensures var (main, other) := (cfg.destinations[0], cfg.destinations[secondary]);
            CanPromote(cfg, secondary, probe) <==>
              && probe.isDir(main.path) && probe.isDir(other.path) && main.path != other.path
              && (forall i :: 0 <= i < |cfg.watched| ==>
                    cfg.watched[i].enabled && cfg.watched[i].destinationId == main.id ==>
                    var (have, offered) := (probe.index(main.path, cfg.watched[i].path),
                                            probe.index(other.path, cfg.watched[i].path));
                    !have.Broken? && !offered.Broken? && NothingNewer(have, offered))
              && probe.valid(Swapped(cfg, secondary)) && probe.clean(Swapped(cfg, secondary))
  {
    var main, other := cfg.destinations[0].path, cfg.destinations[secondary].path;
    forall i | 0 <= i < |cfg.watched|
      ensures var (have, offered) := (probe.index(main, cfg.watched[i].path), probe.index(other, cfg.watched[i].path));
              UpToDate(have, offered) <==> !have.Broken? && !offered.Broken? && NothingNewer(have, offered)
    {
      UpToDateIff(probe.index(main, cfg.watched[i].path), probe.index(other, cfg.watched[i].path));
    }
  }

  method IndexUpToDate(current: ReadIndex, candidate: ReadIndex) returns (ok: bool)
    ensures ok == UpToDate(current, candidate)
  {
    if current.Broken? || candidate.Broken? {
      return false;
    }
    var have, offered := None, None;
    if current.Found? {
      have := Newest(current.versions);
    }
    if candidate.Found? {
      offered := Newest(candidate.versions);
    }
    ok := have.None? || (offered.Some? && offered.value >= have.value);
  }

  /** `verify_secondary_can_be_main`. */
  method VerifySecondary(cfg: Config, secondary: nat, probe: Probe) returns (next: Option<Config>)
    ensures next.Some? <==> CanPromote(cfg, secondary, probe)
    ensures next.Some? ==> next.value == Swapped(cfg, secondary)
  {
    if !(0 < secondary < |cfg.destinations|) {
      return None;
    }
    var main, other := cfg.destinations[0].path, cfg.destinations[secondary].path;
    if !probe.isDir(main) || !probe.isDir(other) || main == other {
      return None;
    }
    var checked: set<string> := {};
    for i := 0 to |cfg.watched|
      invariant forall x :: x in checked ==> UpToDate(probe.index(main, x), probe.index(other, x))
      invariant forall k :: 0 <= k < i && Relevant(cfg, cfg.watched[k]) ==> cfg.watched[k].path in checked
    {
      var w := cfg.watched[i];
      if !Relevant(cfg, w) || w.path in checked {
        continue;
      }
      checked := checked + {w.path};
      var ok := IndexUpToDate(probe.index(main, w.path), probe.index(other, w.path));
      if !ok {
        return None;
      }
    }
    if !probe.valid(Swapped(cfg, secondary)) || !probe.clean(Swapped(cfg, secondary)) {
      return None;
    }
    next := Some(Swapped(cfg, secondary));
  }

  // ----- The protocol -----

  /** The file system, the saved configuration, and the one the daemon runs with, if it is known. */
  datatype World = World(fs: Tree, saved: Config, running: Option<Config>)

  /** A relocation to a new path, or the promotion of a store that has to pass verification. */
  datatype Job =
    | Move(original: Config, index: nat, target: Path, fs0: Tree)
    | Promote(original: Config, secondary: nat, probe: Probe, fs0: Tree)
  {
    predicate Valid() {
      Move? ==> index < |original.destinations| && target != Old()
    }

    function Old(): Path
      requires Move? ==> index < |original.destinations|
    {
      if Move? then original.destinations[index].path else []
    }

    function Next(): Config
      requires Move? && Valid()
    {
      Moved(original, index, target)
    }

    ghost predicate OldIntact(fs: Tree)
      requires Move? && Valid()
    {
      SameStore(fs, Old(), fs0, Old())
    }

    ghost predicate NewVerified(fs: Tree)
      requires Move? && Valid()
    {
      SameStore(fs, target, fs0, Old())
    }

    /** The original configuration with this destination at the new path, and nothing else changed. */
    ghost predicate OnlyMoved(cfg: Config)
      requires Move? && Valid()
    {
      && |cfg.destinations| == |original.destinations|
      && cfg.destinations[index].id == original.destinations[index].id && cfg.destinations[index].path == target
      && (forall i :: 0 <= i < |cfg.destinations| && i != index ==> cfg.destinations[i] == original.destinations[i])
      && cfg.backupRoot == (if index == 0 then target else original.backupRoot)
      && cfg.watched == original.watched && cfg.safeMode == original.safeMode
    }

    /** The folder the configuration names for this destination holds exactly the files of the old store. */
    ghost predicate Leads(cfg: Config, fs: Tree)
      requires Move? && Valid()
    {
      index < |cfg.destinations| && SameStore(fs, cfg.destinations[index].path, fs0, Old())
    }

    /** No file outside the old folder is lost or changed, and none appears outside the new one. */
    ghost predicate OthersKept(fs: Tree)
      requires Move? && Valid()
    {
      forall p :: !Above(Old(), p) && (FileAt(fs0, p).Some? || !Above(target, p)) ==> FileAt(fs, p) == FileAt(fs0, p)
    }

    /**
      The saved configuration is the original or differs in the new path only, and leads to all the
      files of the old store; the old store is only ever incomplete once the new path is saved and
      the daemon runs with it; all other files are as they were.
     */
    ghost predicate Safe(w: World)
      requires Valid()
    {
      if Move? then
        && Leads(w.saved, w.fs) && (w.saved.destinations == original.destinations || OnlyMoved(w.saved))
        && (!OldIntact(w.fs) ==> OnlyMoved(w.saved) && w.running == Some(w.saved))
        && OthersKept(w.fs)
      else
        && w.fs == fs0
        && (|| w.saved.destinations == original.destinations
            || (CanPromote(original, secondary, probe) && w.saved == Swapped(original, secondary)))
    }
  }

  class Machine {
    var fs: Tree
    var saved: Config
    var running: Option<Config>
    var failed: bool
    ghost var trace: seq<World>

    constructor (fs: Tree, saved: Config, running: Option<Config>)
      ensures this.fs == fs && this.saved == saved && this.running == running && !failed
      ensures trace == [World(fs, saved, running)]
    {
      this.fs, this.saved, this.running, failed := fs, saved, running, false;
      trace := [World(fs, saved, running)];
    }

    /** Every state so far was safe. */
    ghost predicate Running(job: Job)
      reads this
    {
      && job.Valid() && trace != [] && trace[|trace| - 1] == World(fs, saved, running)
      && forall k :: 0 <= k < |trace| ==> job.Safe(trace[k])
    }

    method SetFs(next: Tree, ghost job: Job)
      requires Running(job) && job.Safe(World(next, saved, running))
      modifies this
      ensures Running(job) && fs == next && saved == old(saved) && running == old(running) && failed == old(failed)
    {
      fs := next;
      trace := trace + [World(fs, saved, running)];
    }

    /** Saving is atomic: the file holds the old or the new configuration, the new one if it reports success. */
    method SaveConfig(cfg: Config, ghost job: Job) returns (ok: bool)
      requires Running(job) && job.Safe(World(fs, cfg, running))
      modifies this
      ensures Running(job) && fs == old(fs) && running == old(running)
      ensures saved == old(saved) || saved == cfg
      ensures ok ==> saved == cfg
      ensures failed == (old(failed) || !ok)
    {
      var written: bool := *;
      if written {
        saved := cfg;
        trace := trace + [World(fs, saved, running)];
      }
      ok := *;
      ok := ok && written;
      failed := failed || !ok;
    }

    /** The daemon comes up with the saved configuration, or it is unknown what it does. */
    method Restart(ghost job: Job) returns (accepted: bool)
      requires Running(job) && job.Safe(World(fs, saved, None)) && job.Safe(World(fs, saved, Some(saved)))
      modifies this
      ensures Running(job) && fs == old(fs) && saved == old(saved)
      ensures accepted ==> running == Some(saved)
      ensures failed == (old(failed) || !accepted)
    {
      accepted := *;
      failed := failed || !accepted;
      running := if accepted then Some(saved) else None;
      trace := trace + [World(fs, saved, running)];
    }
  }

  /** The stored files after a put. */
  lemma PutFileAt(fs: Tree, p: Path, node: Node, x: Path)
    requires WellFormed(fs) && p != [] && PutFile(fs, p, node).Some? && node.FileNode?
    ensures WellFormed(PutFile(fs, p, node).value)
    ensures FileAt(PutFile(fs, p, node).value, x) == if x == p then Some(node.content) else FileAt(fs, x)
  {
    PutFileAdds(fs, p, node);
  }

  lemma MkdirFileAt(fs: Tree, p: Path, x: Path)
    requires WellFormed(fs) && MkdirAll(fs, p).Some?
    ensures WellFormed(MkdirAll(fs, p).value)
    ensures FileAt(MkdirAll(fs, p).value, x) == FileAt(fs, x)
  {
  }

  lemma BelowHasEntry(fs: Tree, d: Path, x: Path)
    requires WellFormed(fs) && x in fs && Above(d, x) && x != d
    ensures x[..|d| + 1] in Children(fs, d)
  {
    var c := x[..|d| + 1];
    assert Above(c, x) && Parent(c) == d;
    AncestorsThere(fs, x, c);
  }

  /** Nothing lies below a directory without entries. */
  lemma EmptyDirectory(fs: Tree, d: Path, x: Path)
    requires WellFormed(fs) && d in fs && fs[d].DirNode? && Children(fs, d) == {} && Above(d, x)
    ensures FileAt(fs, x).None?
  {
    if x in fs && x != d {
      BelowHasEntry(fs, d, x);
    }
  }

  /** The files copied so far, and nothing else, are under the new root. */
  ghost predicate Copied(fs: Tree, fs0: Tree, from: Path, target: Path, done: seq<Path>) {
    forall rel :: Item(fs, target, rel) == if from + rel in done then Item(fs0, from, rel) else None
  }

  lemma CopiedStep(fs: Tree, fs0: Tree, from: Path, target: Path, done: seq<Path>, rel: Path, next: Tree)
    requires Copied(fs, fs0, from, target, done) && FileAt(fs0, from + rel).Some?
    requires forall x :: FileAt(next, x) == if x == target + rel then FileAt(fs0, from + rel) else FileAt(fs, x)
    ensures Copied(next, fs0, from, target, done + [from + rel])
  {
    forall r ensures Item(next, target, r) == if from + r in done + [from + rel] then Item(fs0, from, r) else None {
      AboveJoin(target, r);
      AboveJoin(target, rel);
      AboveJoin(from, r);
      AboveJoin(from, rel);
      assert Item(fs, target, r) == if from + r in done then Item(fs0, from, r) else None;
    }
  }

  ghost predicate NoFilesUnder(fs: Tree, root: Path) {
    forall p :: Above(root, p) ==> FileAt(fs, p).None?
  }

  /** Copying only under the new root keeps a move safe until its configuration is saved. */
  lemma CopyingSafe(job: Job, w: World)
    requires job.Move? && job.Valid() && Apart(job.target, job.Old()) && OnlyUnder(w.fs, job.fs0, job.target)
    requires w.saved.destinations == job.original.destinations && NoFilesUnder(job.fs0, job.target)
    ensures job.Safe(w) && job.OldIntact(w.fs)
  {
  }

  /** A file while it is copied: only paths under the new root change. */
  method PutUnderNew(m: Machine, p: Path, node: Node, ghost job: Job) returns (ok: bool)
    requires m.Running(job) && job.Move? && Apart(job.target, job.Old()) && OnlyUnder(m.fs, job.fs0, job.target)
    requires WellFormed(m.fs) && m.saved.destinations == job.original.destinations && NoFilesUnder(job.fs0, job.target)
    requires node.FileNode? && Above(job.target, p)
    modifies m
    ensures m.Running(job) && m.saved == old(m.saved) && m.running == old(m.running)
    ensures WellFormed(m.fs) && OnlyUnder(m.fs, job.fs0, job.target)
    ensures ok ==> forall x :: FileAt(m.fs, x) == if x == p then Some(node.content) else FileAt(old(m.fs), x)
    ensures !ok ==> m.fs == old(m.fs) && m.failed
    ensures old(m.failed) ==> m.failed
  {
    var put := if p == [] then None else PutFile(m.fs, p, node);
    if put.None? {
      m.failed := true;
      return false;
    }
    forall x ensures FileAt(put.value, x) == if x == p then Some(node.content) else FileAt(m.fs, x) {
      PutFileAt(m.fs, p, node, x);
    }
    PutFileAt(m.fs, p, node, p);
    CopyingSafe(job, World(put.value, m.saved, m.running));
    m.SetFs(put.value, job);
    ok := true;
  }

  /** A move in which only the new root is being written. */
  ghost predicate Copying(m: Machine, job: Job)
    reads m
  {
    && m.Running(job) && job.Move? && Apart(job.target, job.Old())
    && WellFormed(m.fs) && OnlyUnder(m.fs, job.fs0, job.target)
    && m.saved.destinations == job.original.destinations && NoFilesUnder(job.fs0, job.target)
  }

  /** One file: copied, then both sides are hashed and compared. */
  method CopyFile(m: Machine, rel: Path, sha: bytes -> string, job: Job, ghost done: seq<Path>) returns (ok: bool)
    requires Copying(m, job) && Injective(sha)
    requires Copied(m.fs, job.fs0, job.Old(), job.target, done) && FileAt(job.fs0, job.Old() + rel).Some?
    modifies m
    ensures Copying(m, job) && m.saved == old(m.saved) && m.running == old(m.running)
    ensures ok ==> Copied(m.fs, job.fs0, job.Old(), job.target, done + [job.Old() + rel])
    ensures !ok ==> m.failed
  {
    ghost var before := m.fs;
    ApartStores(job.target, job.Old(), rel);
    var content := FileAt(m.fs, job.Old() + rel).value;
    AboveJoin(job.target, rel);
    var partial: bytes, written: bytes := *, *;
    ok := PutUnderNew(m, job.target + rel, FileNode(partial, None), job);
    if !ok {
      return;
    }
    ok := PutUnderNew(m, job.target + rel, FileNode(written, None), job);
    if !ok {
      return;
    }
    var broken: bool := *;
    if broken || sha(content) != sha(written) {
      m.failed := true;
      return false;
    }
    CopiedStep(before, job.fs0, job.Old(), job.target, done, rel, m.fs);
  }

  /** What keeps a store from being moved: the old folder, the new one, or a link in the old one. */
  ghost predicate Unmovable(fs: Tree, folder: Path, target: Path) {
    || folder !in fs || !fs[folder].DirNode? || !Apart(target, folder)
    || MkdirAll(fs, target).None?
    || Children(MkdirAll(fs, target).value, target) != {}
    || exists p :: p in MkdirAll(fs, target).value && Above(folder, p) && MkdirAll(fs, target).value[p].LinkNode?
  }

  /** Before the first file is copied: the new folder exists, is empty and apart from the old one. */
  method PrepareTarget(m: Machine, job: Job) returns (ok: bool)
    requires m.Running(job) && job.Move? && WellFormed(m.fs) && m.fs == job.fs0
    requires m.saved.destinations == job.original.destinations
    modifies m
    ensures m.Running(job) && m.saved == old(m.saved) && m.running == old(m.running)
    ensures WellFormed(m.fs) && forall x :: FileAt(m.fs, x) == FileAt(job.fs0, x)
    ensures ok ==>
              && Copying(m, job) && Copied(m.fs, job.fs0, job.Old(), job.target, [])
              && job.Old() in m.fs && m.fs[job.Old()].DirNode? && MkdirAll(job.fs0, job.target) == Some(m.fs)
    ensures !ok ==> m.failed || Unmovable(job.fs0, job.Old(), job.target)
    ensures old(m.failed) ==> m.failed
  {
    if job.Old() !in m.fs || !m.fs[job.Old()].DirNode? {
      return false;
    }
    var made := MkdirAll(m.fs, job.target);
    var broken: bool := *;
    if broken || made.None? {
      m.failed := m.failed || broken;
      return false;
    }
    forall x ensures FileAt(made.value, x) == FileAt(m.fs, x) {
      MkdirFileAt(m.fs, job.target, x);
    }
    MkdirAllAdds(m.fs, job.target);
    m.SetFs(made.value, job);
    if Children(m.fs, job.target) != {} || !Apart(job.target, job.Old()) {
      return false;
    }
    forall p | Above(job.target, p) ensures FileAt(m.fs, p).None? {
      EmptyDirectory(m.fs, job.target, p);
    }
    forall rel ensures Item(m.fs, job.target, rel).None? {
      AboveJoin(job.target, rel);
    }
    ok := true;
  }

  /** After the last file the new store is the old one. */
  lemma AllCopied(fs: Tree, fs1: Tree, fs0: Tree, from: Path, target: Path, files: seq<Path>)
    requires Copied(fs, fs0, from, target, files) && AllFiles(fs1, from, files)
    requires forall x :: FileAt(fs1, x) == FileAt(fs0, x)
    ensures SameStore(fs, target, fs0, from)
  {
  }

  /** `copy_and_verify_store`: on success every regular file of the old store is under the new root, verified. */
  method CopyAndVerify(m: Machine, sha: bytes -> string, enoughSpace: bool, job: Job) returns (files: Option<seq<Path>>)
    requires m.Running(job) && job.Move? && WellFormed(m.fs) && m.fs == job.fs0 && Injective(sha)
    requires m.saved.destinations == job.original.destinations
    modifies m
    ensures m.Running(job) && m.saved == old(m.saved) && m.running == old(m.running) && job.OldIntact(m.fs)
    ensures files.Some? ==> Copying(m, job) && job.NewVerified(m.fs)
    ensures files.Some? ==> forall rel :: job.Old() + rel in files.value <==> Item(job.fs0, job.Old(), rel).Some?
    ensures files.None? ==> m.failed || !enoughSpace || Unmovable(job.fs0, job.Old(), job.target)
  {
    var ok := PrepareTarget(m, job);
    if !ok {
      return None;
    }
    ghost var fs1 := m.fs;
    files := ListFiles(m.fs, job.Old());
    var broken: bool := *;
    if files.None? || broken || !enoughSpace {
      m.failed := m.failed || broken;
      return None;
    }
    FoundBelow(fs1, job.fs0, job.Old(), files.value);
    ok := CopyFiles(m, sha, job, files.value);
    CopyingSafe(job, World(m.fs, m.saved, m.running));
    if !ok {
      return None;
    }
    AllCopied(m.fs, fs1, job.fs0, job.Old(), job.target, files.value);
    ListedFiles(fs1, job.fs0, job.Old(), files.value);
  }

  ghost predicate AllBelow(fs: Tree, root: Path, list: seq<Path>) {
    forall i :: 0 <= i < |list| ==> Above(root, list[i]) && FileAt(fs, list[i]).Some?
  }

  lemma FoundBelow(fs1: Tree, fs0: Tree, root: Path, list: seq<Path>)
    requires AllFiles(fs1, root, list) && forall x :: FileAt(fs1, x) == FileAt(fs0, x)
    ensures AllBelow(fs0, root, list)
  {
    forall i | 0 <= i < |list| ensures Above(root, list[i]) && FileAt(fs0, list[i]).Some? {
      assert list[i] in list;
      assert FileAt(fs1, list[i]).Some?;
    }
  }

  method CopyNext(m: Machine, sha: bytes -> string, job: Job, p: Path, ghost done: seq<Path>) returns (ok: bool)
    requires Copying(m, job) && Injective(sha) && Above(job.Old(), p) && FileAt(job.fs0, p).Some?
    requires Copied(m.fs, job.fs0, job.Old(), job.target, done)
    modifies m
    ensures Copying(m, job) && m.saved == old(m.saved) && m.running == old(m.running)
    ensures ok ==> Copied(m.fs, job.fs0, job.Old(), job.target, done + [p])
    ensures !ok ==> m.failed
  {
    JoinBack(job.Old(), p);
    ok := CopyFile(m, p[|job.Old()|..], sha, job, done);
  }

  /** The copy loop over the files that were found. */
  method CopyFiles(m: Machine, sha: bytes -> string, job: Job, list: seq<Path>) returns (ok: bool)
    requires Copying(m, job) && Injective(sha) && AllBelow(job.fs0, job.Old(), list)
    requires Copied(m.fs, job.fs0, job.Old(), job.target, [])
    modifies m
    ensures Copying(m, job) && m.saved == old(m.saved) && m.running == old(m.running)
    ensures ok ==> Copied(m.fs, job.fs0, job.Old(), job.target, list)
    ensures !ok ==> m.failed
  {
    for i := 0 to |list|
      invariant Copying(m, job) && m.saved == old(m.saved) && m.running == old(m.running)
      invariant Copied(m.fs, job.fs0, job.Old(), job.target, list[..i])
    {
      ghost var done := list[..i];
      ok := CopyNext(m, sha, job, list[i], done);
      if !ok {
        return;
      }
      assert list[..i + 1] == done + [list[i]];
    }
    assert list[..|list|] == list;
    ok := true;
  }

  lemma ListedFiles(fs1: Tree, fs0: Tree, root: Path, files: seq<Path>)
    requires AllFiles(fs1, root, files) && forall x :: FileAt(fs1, x) == FileAt(fs0, x)
    ensures forall rel :: root + rel in files <==> Item(fs0, root, rel).Some?
  {
  }

  /** What is left after removing, perhaps only in part, everything under a path. */
  function Without(fs: Tree, root: Path, kept: set<Path>): Tree {
    map p | p in fs && (!Above(root, p) || p in kept) :: fs[p]
  }

  lemma WithoutOld(job: Job, fs: Tree, kept: set<Path>)
    requires job.Move? && job.Valid() && Apart(job.target, job.Old()) && job.NewVerified(fs) && job.OthersKept(fs)
    ensures job.NewVerified(Without(fs, job.Old(), kept)) && job.OthersKept(Without(fs, job.Old(), kept))
  {
  }

  /** The old folder goes last. */
  method RemoveOld(m: Machine, job: Job) returns (removed: bool)
    requires m.Running(job) && job.Move? && Apart(job.target, job.Old()) && job.NewVerified(m.fs)
    requires job.OnlyMoved(m.saved) && m.running == Some(m.saved)
    modifies m
    ensures m.Running(job) && job.OnlyMoved(m.saved) && m.running == Some(m.saved) && job.NewVerified(m.fs)
    ensures removed ==> forall rel :: Item(m.fs, job.Old(), rel).None?
    ensures !removed ==> m.failed
  {
    var kept: set<Path> := *;
    assert job.Safe(m.trace[|m.trace| - 1]);
    WithoutOld(job, m.fs, kept);
    m.SetFs(Without(m.fs, job.Old(), kept), job);
    removed := *;
    if !removed {
      m.failed := true;
    } else {
      WithoutOld(job, m.fs, {});
      m.SetFs(Without(m.fs, job.Old(), {}), job);
      forall rel ensures Item(m.fs, job.Old(), rel).None? {
        AboveJoin(job.Old(), rel);
      }
    }
  }

  /** The move after pausing: copy, save, restart, remove; each failure goes back to the original configuration. */
  method MoveStore(m: Machine, sha: bytes -> string, enoughSpace: bool, job: Job) returns (ok: bool, removed: bool)
    requires m.Running(job) && job.Move? && WellFormed(m.fs) && m.fs == job.fs0 && Injective(sha)
    requires m.saved.destinations == job.original.destinations
    modifies m
    ensures m.Running(job)
    ensures ok ==> job.OnlyMoved(m.saved) && m.running == Some(m.saved) && job.NewVerified(m.fs)
    ensures removed ==> ok && forall rel :: Item(m.fs, job.Old(), rel).None?
    ensures !ok ==> m.failed || !enoughSpace || Unmovable(job.fs0, job.Old(), job.target)
    ensures ok && !removed ==> m.failed
  {
    removed := false;
    var files := CopyAndVerify(m, sha, enoughSpace, job);
    if files.None? {
      var _ := m.SaveConfig(job.original, job);
      return false, false;
    }
    var saved := m.SaveConfig(job.Next(), job);
    if !saved {
      var _ := m.SaveConfig(job.original, job);
      return false, false;
    }
    var accepted := m.Restart(job);
    if !accepted {
      var _ := m.SaveConfig(job.original, job);
      var _ := m.Restart(job);
      return false, false;
    }
    removed := RemoveOld(m, job);
    ok := true;
  }

  /** The promotion after pausing. */
  method PromoteSecondary(m: Machine, job: Job) returns (ok: bool)
    requires m.Running(job) && job.Promote? && m.saved.destinations == job.original.destinations
    modifies m
    ensures m.Running(job)
    ensures ok ==>
              && CanPromote(job.original, job.secondary, job.probe)
              && m.saved == Swapped(job.original, job.secondary) && m.running == Some(m.saved)
    ensures !ok ==> m.failed || !CanPromote(job.original, job.secondary, job.probe)
  {
    var next := VerifySecondary(job.original, job.secondary, job.probe);
    if next.None? {
      var _ := m.SaveConfig(job.original, job);
      return false;
    }
    var saved := m.SaveConfig(next.value, job);
    if !saved {
      var _ := m.SaveConfig(job.original, job);
      return false;
    }
    var accepted := m.Restart(job);
    if !accepted {
      var _ := m.SaveConfig(job.original, job);
      var _ := m.Restart(job);
      return false;
    }
    ok := true;
  }

  // ----- Other stores -----

  /** Every file the store at `other` had is still there. */
  ghost predicate NothingLost(fs: Tree, before: Tree, other: Path) {
    forall rel :: Item(before, other, rel).Some? ==> Item(fs, other, rel) == Item(before, other, rel)
  }

  /** No file of the store at `other` lies inside the folder. */
  ghost predicate OutsideOf(fs: Tree, other: Path, folder: Path) {
    forall rel :: Item(fs, other, rel).Some? ==> !Above(folder, other + rel)
  }

  lemma GoneBelow(fs: Tree, root: Path, p: Path)
    requires forall rel :: Item(fs, root, rel).None?
    ensures Above(root, p) ==> FileAt(fs, p).None?
  {
    if Above(root, p) {
      JoinBack(root, p);
      assert Item(fs, root, p[|root|..]).None?;
    }
  }

  /** Once the old folder is gone, another store has kept its files exactly when none of them lay inside. */
  lemma SparedIff(job: Job, w: World, other: Path)
    requires job.Move? && job.Valid() && job.Safe(w) && forall rel :: Item(w.fs, job.Old(), rel).None?
    ensures NothingLost(w.fs, job.fs0, other) <==> OutsideOf(job.fs0, other, job.Old())
  {
    if NothingLost(w.fs, job.fs0, other) {
      forall rel | Item(job.fs0, other, rel).Some? ensures !Above(job.Old(), other + rel) {
        GoneBelow(w.fs, job.Old(), other + rel);
      }
    }
  }

  lemma SparedThroughout(m: Machine, job: Job, removed: bool)
    requires m.Running(job) && job.Move?
    requires removed ==> forall rel :: Item(m.fs, job.Old(), rel).None?
    ensures forall k, other :: 0 <= k < |m.trace| && OutsideOf(job.fs0, other, job.Old()) ==>
              NothingLost(m.trace[k].fs, job.fs0, other)
    ensures removed ==> forall other ::
              NothingLost(m.fs, job.fs0, other) <==> OutsideOf(job.fs0, other, job.Old())
  {
    forall k, other | 0 <= k < |m.trace| && OutsideOf(job.fs0, other, job.Old())
      ensures NothingLost(m.trace[k].fs, job.fs0, other)
    {
      assert job.OthersKept(m.trace[k].fs);
    }
    if removed {
      forall other ensures NothingLost(m.fs, job.fs0, other) <==> OutsideOf(job.fs0, other, job.Old()) {
        SparedIff(job, m.trace[|m.trace| - 1], other);
      }
    }
  }

  /**
    For instance: main storage at `a` is moved to `c` while a second destination is at `a/b`.  The
    move is safe for main storage, and the second destination loses its file.
   */
  lemma NestedDestinationLost()
    ensures var file := FileNode([1], None);
            var fs0: Tree := map[[] := DirNode, ["a"] := DirNode, ["a", "b"] := DirNode, ["a", "b", "f"] := file];
            var fs1: Tree := map[[] := DirNode, ["c"] := DirNode, ["c", "b"] := DirNode, ["c", "b", "f"] := file];
            var cfg := Config(["a"], [Destination("main", ["a"]), Destination("second", ["a", "b"])], [], false);
            var job := Move(cfg, 0, ["c"], fs0);
            && WellFormed(fs0) && job.Valid() && job.Safe(World(fs1, job.Next(), Some(job.Next())))
            && job.Next().destinations[1].path == ["a", "b"] && !NothingLost(fs1, fs0, ["a", "b"])
  {
    var file := FileNode([1], None);
    var fs0: Tree := map[[] := DirNode, ["a"] := DirNode, ["a", "b"] := DirNode, ["a", "b", "f"] := file];
    var fs1: Tree := map[[] := DirNode, ["c"] := DirNode, ["c", "b"] := DirNode, ["c", "b", "f"] := file];
    var cfg := Config(["a"], [Destination("main", ["a"]), Destination("second", ["a", "b"])], [], false);
    var job := Move(cfg, 0, ["c"], fs0);
    assert Parent(["a"]) == [] && Parent(["a", "b"]) == ["a"] && Parent(["a", "b", "f"]) == ["a", "b"];
    forall rel ensures Item(fs1, ["c"], rel) == Item(fs0, ["a"], rel) {
      assert (["c"] + rel)[1..] == rel && (["a"] + rel)[1..] == rel;
      assert ["c", "b", "f"][1..] == ["b", "f"] == ["a", "b", "f"][1..];
      assert ["c"] + ["b", "f"] == ["c", "b", "f"] && ["a"] + ["b", "f"] == ["a", "b", "f"];
    }
    assert ["a", "b"] + ["f"] == ["a", "b", "f"];
    assert Item(fs0, ["a", "b"], ["f"]).Some? && Item(fs1, ["a", "b"], ["f"]).None?;
  }

  /** The first destination that satisfies the condition. */
  method FindDestination(list: seq<Destination>, wanted: (nat, Destination) -> bool) returns (r: Option<nat>)
    ensures r.None? <==> forall i :: 0 <= i < |list| ==> !wanted(i, list[i])
    ensures r.Some? ==> r.value < |list| && wanted(r.value, list[r.value])
    ensures r.Some? ==> forall i :: 0 <= i < r.value ==> !wanted(i, list[i])
  {
    for i := 0 to |list|
      invariant forall k :: 0 <= k < i ==> !wanted(k, list[k])
    {
      if wanted(i, list[i]) {
        return Some(i);
      }
    }
    r := None;
  }

  /** The first destination with this id. */
  predicate FirstWith(list: seq<Destination>, id: string, i: nat) {
    i < |list| && list[i].id == id && forall k :: 0 <= k < i ==> list[k].id != id
  }

  /** Requests that are turned down: no such destination, nowhere to move, or a place only main storage may take. */
  predicate Refused(list: seq<Destination>, id: string, target: Path) {
    || target == []
    || forall i :: 0 <= i < |list| && FirstWith(list, id, i) ==>
         list[i].path == target || (i != 0 && exists k :: 0 <= k < |list| && k != i && list[k].path == target)
  }

  /**
    `relocate_destination_cmd`.  A refused request changes nothing; otherwise every state of the
    run, however it ends, is safe for the job the request stands for.  That fails only on an error
    of the system or for a reason that can be told beforehand.
   */
  method Relocate(m: Machine, id: string, target: Path, probe: Probe, sha: bytes -> string, enoughSpace: bool)
    returns (ok: bool, removed: bool, ghost job: Option<Job>)
    requires m.trace == [World(m.fs, m.saved, m.running)] && WellFormed(m.fs) && Injective(sha)
    modifies m
    ensures job.None? ==> !ok && m.trace == old(m.trace)
    ensures job.None? <==> Refused(old(m.saved).destinations, id, target)
    ensures job.Some? ==>
              && m.Running(job.value) && job.value.fs0 == old(m.fs) && job.value.original == old(m.saved)
              && (job.value.Move? ==>
                job.value.target == target && job.value.original.destinations[job.value.index].id == id)
              && (job.value.Promote? ==>
                && job.value.probe == probe && 0 < job.value.secondary < |old(m.saved).destinations|
                && old(m.saved).destinations[0].id == id
                && old(m.saved).destinations[job.value.secondary].path == target)
    ensures ok && job.value.Move? ==>
              && job.value.OnlyMoved(m.saved) && m.running == Some(m.saved)
              && job.value.Leads(m.saved, m.fs) && job.value.NewVerified(m.fs)
    ensures ok && job.value.Promote? ==>
              && CanPromote(old(m.saved), job.value.secondary, probe)
              && m.saved == Swapped(old(m.saved), job.value.secondary) && m.fs == old(m.fs)
    ensures removed ==> ok && job.value.Move?
    ensures ok && job.value.Move? && !removed ==> m.failed
    ensures !ok && job.Some? ==>
              || m.failed
              || (job.value.Move? && (!enoughSpace || Unmovable(old(m.fs), job.value.Old(), target)))
              || (job.value.Promote? && !CanPromote(old(m.saved), job.value.secondary, probe))
    ensures job.Some? && job.value.Move? ==> forall k, other ::
              0 <= k < |m.trace| && OutsideOf(old(m.fs), other, job.value.Old()) ==>
                NothingLost(m.trace[k].fs, old(m.fs), other)
    ensures removed ==> forall i :: 0 <= i < |job.value.original.destinations| ==>
              var other := job.value.original.destinations[i].path;
              NothingLost(m.fs, old(m.fs), other) <==> OutsideOf(old(m.fs), other, job.value.Old())
  {
    ok, removed, job := false, false, None;
    var original := m.saved;
    var found := FindDestination(original.destinations, (_, d: Destination) => d.id == id);
    if found.None? {
      return;
    }
    var index := found.value;
    var existing := FindDestination(original.destinations, (i: nat, d: Destination) => i != index && d.path == target);
    if original.destinations[index].path == target || target == [] || (existing.Some? && index != 0) {
      return;
    }
    var work := if existing.Some? then Promote(original, existing.value, probe, m.fs)
                else Move(original, index, target, m.fs);
    job := Some(work);
    var paused := m.SaveConfig(original.(safeMode := true), work);
    if !paused {
      return;
    }
    var stopped: bool, offline: bool := *, *;
    if !stopped && !offline {
      m.failed := true;
      var _ := m.SaveConfig(original, work);
      return;
    }
    if existing.Some? {
      ok := PromoteSecondary(m, work);
    } else {
      ok, removed := MoveStore(m, sha, enoughSpace, work);
    }
    if work.Move? {
      SparedThroughout(m, work, removed);
    }
  }
}
