/** When a manifest can be restored at all, and a manifest whose restore is not what it records. */
module RestoreShape {
  import opened Common
  import opened Model
  import opened RelPaths
  import opened Trees
  import Blobs
  import opened Replication
  import opened Restore

  // ----- When directories and files can be added -----

  /** A directory path can be made exactly when nothing but directories is on it. */
  lemma {:induction false} MkdirAllSomeIff(t: Tree, p: Path)
    requires WellFormed(t)
    ensures MkdirAll(t, p).Some? <==> forall x :: Above(x, p) && x in t ==> t[x].DirNode?
    decreases |p|
  {
    if p in t {
      forall x | Above(x, p) && x != p && x in t ensures t[x].DirNode? {
        AncestorsThere(t, p, x);
      }
    } else {
      MkdirAllSomeIff(t, Parent(p));
      forall x ensures Above(x, p) <==> x == p || Above(x, Parent(p)) {
        PrefixOfSnoc(x, p);
      }
    }
  }

  /** `p` is a file's place: no directory to make, and no other file, is at, above or below it. */
  ghost predicate Fits(p: Path, dirs: seq<Path>, files: seq<Path>) {
    && p != []
    && (forall i :: 0 <= i < |dirs| ==> !Above(p, dirs[i]))
    && (forall i :: 0 <= i < |files| && (Above(p, files[i]) || Above(files[i], p)) ==> files[i] == p)
  }

  /** The nodes of a tree that holds these directories and files. */
  lemma NodesOf(t: Tree, dirs: seq<Path>, nodes: seq<(Path, Node)>, p: Path)
    requires Holds(t, dirs, nodes) && forall i :: 0 <= i < |nodes| ==> nodes[i].1.FileNode?
    ensures p in t && !t[p].DirNode? <==> exists i :: 0 <= i < |nodes| && nodes[i].0 == p
    ensures p in t ==> t[p].DirNode? || t[p].FileNode?
  {
    LastAtCovered(nodes, p);
    if i :| 0 <= i < |nodes| && nodes[i].0 == p {
      assert Above(p, nodes[i].0);
      assert Covered(p, dirs, nodes);
    }
  }

  function Paths(nodes: seq<(Path, Node)>): seq<Path> {
    seq(|nodes|, i requires 0 <= i < |nodes| => nodes[i].0)
  }

  /** A file can be added to what is there exactly when its content is there, its path ends in a name and fits. */
  lemma AddFileSomeIff(content: Contents, t: Tree, dirs: seq<Path>, nodes: seq<(Path, Node)>, pf: PlannedFile)
    requires Holds(t, dirs, nodes) && forall i :: 0 <= i < |nodes| ==> nodes[i].1.FileNode?
    requires forall i :: 0 <= i < |dirs| ==> dirs[i] in t && t[dirs[i]].DirNode?
    ensures AddFile(content, t, pf).Some? <==>
            content(pf.hash).Some? && EndsInName(pf.relPath) && Fits(Resolve(pf.relPath), dirs, Paths(nodes))
  {
    var p, files := Resolve(pf.relPath), Paths(nodes);
    if p != [] {
      if Fits(p, dirs, files) {
        FitsAdds(t, dirs, nodes, p);
      }
      if PutFile(t, p, FileNode([], None)).Some? {
        AddsFits(t, dirs, nodes, p);
      }
      assert forall node :: PutFile(t, p, node).Some? <==> PutFile(t, p, FileNode([], None)).Some?;
    }
  }

  lemma FitsAdds(t: Tree, dirs: seq<Path>, nodes: seq<(Path, Node)>, p: Path)
    requires Holds(t, dirs, nodes) && forall i :: 0 <= i < |nodes| ==> nodes[i].1.FileNode?
    requires Fits(p, dirs, Paths(nodes))
    ensures PutFile(t, p, FileNode([], None)).Some?
  {
    var files := Paths(nodes);
    assert forall i :: 0 <= i < |nodes| ==> nodes[i].0 == files[i];
    forall x | Above(x, Parent(p)) && x in t ensures t[x].DirNode? {
      NodesOf(t, dirs, nodes, x);
      PrefixOfSnoc(x, p);
      assert |x| < |p|;
    }
    MkdirAllSomeIff(t, Parent(p));
    MkdirAllAdds(t, Parent(p));
    NodesOf(t, dirs, nodes, p);
    assert p in t ==> Covered(p, dirs, nodes);
  }

  lemma AddsFits(t: Tree, dirs: seq<Path>, nodes: seq<(Path, Node)>, p: Path)
    requires Holds(t, dirs, nodes) && forall i :: 0 <= i < |nodes| ==> nodes[i].1.FileNode?
    requires forall i :: 0 <= i < |dirs| ==> dirs[i] in t && t[dirs[i]].DirNode?
    requires p != [] && PutFile(t, p, FileNode([], None)).Some?
    ensures Fits(p, dirs, Paths(nodes))
  {
    var files := Paths(nodes);
    MkdirAllSomeIff(t, Parent(p));
    MkdirAllAdds(t, Parent(p));
    forall i | 0 <= i < |dirs| ensures !Above(p, dirs[i]) {
      if Above(p, dirs[i]) {
        AncestorsThere(t, dirs[i], p);
      }
    }
    forall i | 0 <= i < |files| && Above(p, files[i]) ensures files[i] == p {
      NodesOf(t, dirs, nodes, files[i]);
      assert nodes[i].0 == files[i];
      AncestorsThere(t, files[i], p);
    }
    forall i | 0 <= i < |files| && Above(files[i], p) ensures files[i] == p {
      NodesOf(t, dirs, nodes, files[i]);
      assert nodes[i].0 == files[i];
      PrefixOfSnoc(files[i], p);
    }
  }

  // ----- When a manifest can be restored -----

  function FilePaths(files: seq<PlannedFile>): seq<Path> {
    seq(|files|, i requires 0 <= i < |files| => Resolve(files[i].relPath))
  }

  /** No file sits at or above a directory, or strictly above another file. */
  ghost predicate NoPathClash(dirs: seq<Path>, files: seq<Path>) {
    && (forall i :: 0 <= i < |files| ==> files[i] != [])
    && (forall i, j :: 0 <= i < |files| && 0 <= j < |dirs| ==> !Above(files[i], dirs[j]))
    && (forall i, j :: 0 <= i < |files| && 0 <= j < |files| && Above(files[i], files[j]) ==> files[i] == files[j])
  }

  ghost predicate AllContents(content: Contents, files: seq<PlannedFile>) {
    forall i :: 0 <= i < |files| ==> content(files[i].hash).Some?
  }

  predicate AllEndInName(files: seq<PlannedFile>) {
    forall i :: 0 <= i < |files| ==> EndsInName(files[i].relPath)
  }

  /** The files can be put side by side into the directories of the manifest. */
  ghost predicate Placeable(m: Manifest) {
    AllEndInName(PlannedOf(m.entries)) && NoPathClash(DirPaths(m.entries), FilePaths(PlannedOf(m.entries)))
  }

  lemma ClashSnoc(dirs: seq<Path>, files: seq<Path>, p: Path)
    ensures NoPathClash(dirs, files + [p]) <==> NoPathClash(dirs, files) && Fits(p, dirs, files)
  {
    var more := files + [p];
    assert more[|files|] == p && forall i :: 0 <= i < |files| ==> more[i] == files[i];
    if NoPathClash(dirs, more) {
      forall i, j | 0 <= i < |files| && 0 <= j < |files| && Above(files[i], files[j]) ensures files[i] == files[j] {
        assert Above(more[i], more[j]);
      }
      forall i | 0 <= i < |files| && (Above(p, files[i]) || Above(files[i], p)) ensures files[i] == p {
        assert Above(more[|files|], more[i]) || Above(more[i], more[|files|]);
      }
    }
  }

  lemma PathsSnoc(content: Contents, files: seq<PlannedFile>)
    requires files != []
    ensures var init := files[..|files| - 1];
            && FilePaths(files) == FilePaths(init) + [Resolve(files[|files| - 1].relPath)]
            && Paths(FileNodes(content, init)) == FilePaths(init)
            && (AllContents(content, files) <==> AllContents(content, init) && content(files[|files| - 1].hash).Some?)
  {
    var n := |files| - 1;
    assert forall i :: 0 <= i < n ==> files[..n][i] == files[i];
  }

  lemma EndInNameSnoc(files: seq<PlannedFile>)
    requires files != []
    ensures AllEndInName(files) <==> AllEndInName(files[..|files| - 1]) && EndsInName(files[|files| - 1].relPath)
  {
    var init := files[..|files| - 1];
    assert forall i :: 0 <= i < |init| ==> init[i] == files[i];
  }

  lemma {:induction false} AddFilesSomeIff(content: Contents, t: Tree, dirs: seq<Path>, files: seq<PlannedFile>)
    requires Holds(t, dirs, []) && forall i :: 0 <= i < |dirs| ==> dirs[i] in t && t[dirs[i]].DirNode?
    ensures AddFiles(content, t, files).Some? <==>
            AllContents(content, files) && AllEndInName(files) && NoPathClash(dirs, FilePaths(files))
  {
    if files != [] {
      var init, last := files[..|files| - 1], files[|files| - 1];
      AddFilesSomeIff(content, t, dirs, init);
      PathsSnoc(content, files);
      EndInNameSnoc(files);
      ClashSnoc(dirs, FilePaths(init), Resolve(last.relPath));
      if AddFiles(content, t, init).Some? {
        var made := AddFiles(content, t, init).value;
        AddFilesHolds(content, t, dirs, init);
        forall i | 0 <= i < |dirs| ensures dirs[i] in made && made[dirs[i]].DirNode? {
          AddFilesKeepsDir(content, t, init, dirs[i]);
        }
        AddFileSomeIff(content, made, dirs, FileNodes(content, init), last);
        assert FileStep(content)(made, last) == AddFile(content, made, last);
      }
    }
  }

  lemma {:induction false} AddDirsSome(entries: seq<KeyedEntry>)
    ensures AddDirs(EMPTY_DIR, entries).Some?
    ensures Holds(AddDirs(EMPTY_DIR, entries).value, DirPaths(entries), [])
  {
    if entries != [] {
      var init, e := entries[..|entries| - 1], entries[|entries| - 1].entry;
      AddDirsSome(init);
      if e.kind.DirEntry? {
        MkdirAllSomeIff(AddDirs(EMPTY_DIR, init).value, Resolve(e.relPath));
      }
    }
    AddDirsHolds(entries);
  }

  /** A manifest's tree can be built exactly when all its contents are there and its files can be placed. */
  lemma BuildTreeSomeIff(content: Contents, m: Manifest)
    ensures BuildTree(content, m).Some? <==> AllContents(content, PlannedOf(m.entries)) && Placeable(m)
  {
    AddDirsSome(m.entries);
    var t, dirs := AddDirs(EMPTY_DIR, m.entries).value, DirPaths(m.entries);
    forall i | 0 <= i < |dirs| ensures dirs[i] in t && t[dirs[i]].DirNode? {
      assert Above(dirs[i], dirs[i]);
      assert Covered(dirs[i], dirs, []);
    }
    AddFilesSomeIff(content, t, dirs, PlannedOf(m.entries));
  }

  // ----- A restore that is not exact -----

  /** Two names of one path, with different contents. */
  function CollidingManifest(a: string, b: string): Manifest {
    Manifest("src", [KeyedEntry("a//b", ManifestEntry(FileEntry, "a//b", 0, 0, 0, Some(a))),
                     KeyedEntry("a/b", ManifestEntry(FileEntry, "a/b", 1, 0, 0, Some(b)))])
  }

  function CollidingEnv(a: string, b: string, m: Manifest): Env {
    Env(Blobs.Primitives((pt, level) => None, (ct, cap) => None,
                         (key, nonce, position, last, pt) => None, (key, nonce, position, last, ct) => None,
                         plain => if plain == [] then a else b),
        None, raw => None, raw => Some(m))
  }

  function CollidingStore(a: string, b: string): Store {
    Store(map["s" := SourceDir(None, map["v1.json" := Regular([])], None)], map[a := Regular([]), b := Regular([1])])
  }

  lemma CollidingPlan(a: string, b: string)
    ensures PlannedOf(CollidingManifest(a, b).entries) == [PlannedFile("a//b", a, 0, 0), PlannedFile("a/b", b, 0, 0)]
    ensures DirPaths(CollidingManifest(a, b).entries) == []
  {
    var entries := CollidingManifest(a, b).entries;
    assert entries[..1] == [entries[0]] && entries[..1][..0] == [];
    assert PlannedOf(entries[..1]) == [PlannedFile("a//b", a, 0, 0)] && DirPaths(entries[..1]) == [];
  }

  lemma CollidingPlaceable(a: string, b: string)
    ensures Placeable(CollidingManifest(a, b))
  {
    CollidingPlan(a, b);
    CollidingPaths(PlannedOf(CollidingManifest(a, b).entries));
    SamePathNoClash(["a", "b"], PlannedOf(CollidingManifest(a, b).entries));
  }

  lemma CollidingPaths(files: seq<PlannedFile>)
    requires |files| == 2 && files[0].relPath == "a//b" && files[1].relPath == "a/b"
    ensures AllEndInName(files) && forall i :: 0 <= i < |files| ==> Resolve(files[i].relPath) == ["a", "b"]
  {
    KeysEndInName();
    KeysCollide();
  }

  lemma SamePathNoClash(p: Path, files: seq<PlannedFile>)
    requires p != [] && forall i :: 0 <= i < |files| ==> Resolve(files[i].relPath) == p
    ensures NoPathClash([], FilePaths(files))
  {
  }

  lemma CollidingContents(a: string, b: string, m: Manifest)
    requires a != b
    ensures var (env, st) := (CollidingEnv(a, b, m), CollidingStore(a, b));
            && GoodBlob(env, st, a) && GoodBlob(env, st, b)
            && FileContent(env, st, a) == Some([]) && FileContent(env, st, b) == Some([1])
  {
    assert !Blobs.Framed([]) && !Blobs.Framed([1]);
  }

  lemma CollidingIsValid(a: string, b: string)
    requires a != b && ValidHash(a) && ValidHash(b)
    ensures var m := CollidingManifest(a, b);
            var (env, st) := (CollidingEnv(a, b, m), CollidingStore(a, b));
            LoadManifest(env, st, "s", "v1") == Some(m) && Complete(env, st, "s", "v1") && Preflight(st, m).Some?
  {
    var m := CollidingManifest(a, b);
    KeysCollide();
    CollidingContents(a, b, m);
    assert ManifestName("v1") == "v1.json";
    forall h | h in BlobsOf(m) ensures h == a || h == b {
    }
  }

  lemma CollidingRestores(a: string, b: string)
    requires a != b
    ensures var m := CollidingManifest(a, b);
            var (env, st) := (CollidingEnv(a, b, m), CollidingStore(a, b));
            && RestoreTree(env, st, m).Some?
            && !EveryFileAsRecorded(env.prims.sha256Hex, RestoreTree(env, st, m).value, m)
  {
    var m := CollidingManifest(a, b);
    var env, st := CollidingEnv(a, b, m), CollidingStore(a, b);
    CollidingPlan(a, b);
    CollidingContents(a, b, m);
    CollidingPlaceable(a, b);
    BuildTreeSomeIff(StoreContents(env, st), m);
    RestoredExactly(env, st, m);
    KeysCollide();
    assert PutsFile(m.entries[0].entry, ["a", "b"]) && PutsFile(m.entries[1].entry, ["a", "b"]);
  }

  /** A valid manifest with all its blobs good restores, and one of its files does not have its recorded hash. */
  lemma CollidingKeysRestoredWrong() returns (env: Env, st: Store, m: Manifest)
    ensures LoadManifest(env, st, "s", "v1") == Some(m) && Preflight(st, m).Some?
    ensures Complete(env, st, "s", "v1") && RestoreTree(env, st, m).Some?
    ensures !EveryFileAsRecorded(env.prims.sha256Hex, RestoreTree(env, st, m).value, m)
  {
    var a, b := seq(64, i => 'a'), seq(64, i => 'b');
    assert a[0] != b[0];
    m := CollidingManifest(a, b);
    env, st := CollidingEnv(a, b, m), CollidingStore(a, b);
    CollidingIsValid(a, b);
    CollidingRestores(a, b);
  }
}
