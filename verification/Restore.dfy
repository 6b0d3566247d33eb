/**
  Restoring a whole version: checks and plan first, then a staged tree, then a swap into place
  with a roll back.
 */
module Restore {
  import opened Common
  import opened Model
  import opened RelPaths
  import opened Trees
  import Blobs
  import opened BlobStreams
  import opened Replication

  // ----- Manifest checks and the plan -----

  /** `validate_manifest`. */
  predicate ValidManifest(m: Manifest) {
    forall i :: 0 <= i < |m.entries| ==>
      var (key, entry) := (m.entries[i].key, m.entries[i].entry);
      && ValidRelPath(key)
      && ValidRelPath(entry.relPath)
      && key == entry.relPath
      && (entry.sha256.Some? ==> ValidHash(entry.sha256.value))
  }

  /** The manifest a restore request reads from a store. */
  function LoadManifest(env: Env, st: Store, s: string, version: string): Option<Manifest> {
    if !ValidVersionId(version) || ManifestAt(st, s, version).None? then None
    else match env.parseManifest(ManifestAt(st, s, version).value)
      case None => None
      case Some(m) => if ValidManifest(m) then Some(m) else None
  }

  datatype PlannedFile = PlannedFile(relPath: string, hash: string, mtimeUnix: int, mtimeNanos: nat)

  /** The file entries of a manifest, in order. */
  function PlannedOf(entries: seq<KeyedEntry>): seq<PlannedFile> {
    if entries == [] then []
    else
      var (init, e) := (entries[..|entries| - 1], entries[|entries| - 1].entry);
      if NamesBlob(e) then PlannedOf(init) + [PlannedFile(e.relPath, e.sha256.value, e.mtimeUnix, e.mtimeNanos)]
      else PlannedOf(init)
  }

  predicate EntryAvailable(st: Store, e: ManifestEntry) {
    e.kind.FileEntry? ==> e.sha256.Some? && e.sha256.value in st.blobs
  }

  /** `preflight_restore`, free space aside: every file entry has a hash and a blob under it. */
  function Preflight(st: Store, m: Manifest): Option<seq<PlannedFile>> {
    if forall i :: 0 <= i < |m.entries| ==> EntryAvailable(st, m.entries[i].entry)
    then Some(PlannedOf(m.entries)) else None
  }

  /** The plan is the file entries at these positions, one after the other, and no file entry is missing. */
  ghost predicate PlansAt(m: Manifest, positions: seq<nat>, plan: seq<PlannedFile>) {
    && |positions| == |plan| && (forall a, b :: 0 <= a < b < |positions| ==> positions[a] < positions[b])
    && (forall i :: 0 <= i < |m.entries| && m.entries[i].entry.kind.FileEntry? ==> i in positions)
    && (forall k :: 0 <= k < |positions| ==>
          && positions[k] < |m.entries| && m.entries[positions[k]].entry.kind.FileEntry?
          && PlansEntry(plan[k], m.entries[positions[k]].entry))
  }

  predicate PlansEntry(pf: PlannedFile, e: ManifestEntry) {
    pf.relPath == e.relPath && Some(pf.hash) == e.sha256 && pf.mtimeUnix == e.mtimeUnix && pf.mtimeNanos == e.mtimeNanos
  }

  /** `preflight_restore`. */
  method PreflightRestore(st: Store, m: Manifest, enoughSpace: bool)
    returns (r: Option<seq<PlannedFile>>, ghost positions: seq<nat>)
    ensures r == if enoughSpace then Preflight(st, m) else None
    ensures r.Some? ==> PlansAt(m, positions, r.value) && forall k :: 0 <= k < |r.value| ==> r.value[k].hash in st.blobs
    ensures r.None? && enoughSpace ==>
              exists i :: 0 <= i < |m.entries| &&
                var e := m.entries[i].entry; e.kind.FileEntry? && (e.sha256.None? || e.sha256.value !in st.blobs)
  {
    var missing: seq<string> := [];
    var planned: seq<PlannedFile> := [];
    positions := [];
    for i := 0 to |m.entries|
      invariant missing == [] <==> forall k :: 0 <= k < i ==> EntryAvailable(st, m.entries[k].entry)
      invariant missing == [] ==> planned == PlannedOf(m.entries[..i])
      invariant |positions| == |planned| && forall k :: 0 <= k < |planned| ==> planned[k].hash in st.blobs
      invariant forall a, b :: 0 <= a < b < |positions| ==> positions[a] < positions[b]
      invariant forall k :: 0 <= k < |positions| ==>
                  && positions[k] < i && m.entries[positions[k]].entry.kind.FileEntry?
                  && PlansEntry(planned[k], m.entries[positions[k]].entry)
      invariant missing == [] ==> forall k :: 0 <= k < i && m.entries[k].entry.kind.FileEntry? ==> k in positions
    {
      assert m.entries[..i + 1][..i] == m.entries[..i];
      var e := m.entries[i].entry;
      if !e.kind.FileEntry? {
        continue;
      }
      if e.sha256.None? || e.sha256.value !in st.blobs {
        missing := missing + [e.relPath];
        continue;
      }
      planned := planned + [PlannedFile(e.relPath, e.sha256.value, e.mtimeUnix, e.mtimeNanos)];
      positions := positions + [i];
    }
    assert m.entries[..|m.entries|] == m.entries;
    if missing != [] || !enoughSpace {
      return None, [];
    }
    r := Some(planned);
  }

  // ----- Tree building -----

  function Mtime(pf: PlannedFile): Option<(int, nat)> {
    if pf.mtimeUnix <= 0 then None else Some((pf.mtimeUnix, pf.mtimeNanos))
  }

  /** The verified plaintext of a blob: it decodes, and to the hash it is stored under. */
  function SlotContent(env: Env, blob: Slot, hash: string): Option<bytes> {
    if blob.NotRegular? then None
    else match Blobs.DecodeBlob(env.prims, env.cipher, blob.content)
      case None => None
      case Some(plain) => if env.prims.sha256Hex(plain) == hash then Some(plain) else None
  }

  function FileContent(env: Env, st: Store, hash: string): Option<bytes> {
    if hash in st.blobs then SlotContent(env, st.blobs[hash], hash) else None
  }

  /**
    Whatever a store holds under the hash of a plaintext, a restore gets that plaintext or nothing:
    also when a plain copy begins with a magic and is decoded as something else.
   */
  lemma ContentNeverWrong(env: Env, st: Store, plain: bytes)
    requires env.prims.CollisionFree()
    ensures var hash := env.prims.sha256Hex(plain);
            && (FileContent(env, st, hash).Some? ==> FileContent(env, st, hash) == Some(plain))
            && (GoodBlob(env, st, hash) <==> FileContent(env, st, hash) == Some(plain))
  {
  }

  /** Steps done one after the other, up to the first that fails. */
  function Each<X>(step: (Tree, X) -> Option<Tree>, t: Tree, xs: seq<X>): Option<Tree> {
    if xs == [] then Some(t)
    else match Each(step, t, xs[..|xs| - 1])
      case None => None
      case Some(made) => step(made, xs[|xs| - 1])
  }

  lemma EachSnoc<X>(step: (Tree, X) -> Option<Tree>, t: Tree, xs: seq<X>, i: nat)
    requires i < |xs|
    ensures Each(step, t, xs[..i + 1]) ==
            match Each(step, t, xs[..i]) case None => None case Some(made) => step(made, xs[i])
  {
    assert xs[..i + 1][..i] == xs[..i];
  }

  /** One failed step fails them all. */
  lemma {:induction false} EachFails<X>(step: (Tree, X) -> Option<Tree>, t: Tree, xs: seq<X>, i: nat)
    requires i <= |xs| && Each(step, t, xs[..i]).None?
    ensures Each(step, t, xs).None?
  {
    if i == |xs| {
      assert xs[..i] == xs;
    } else {
      var n := |xs| - 1;
      assert xs[..n][..i] == xs[..i];
      EachFails(step, t, xs[..n], i);
    }
  }

  /** If all steps succeeded, so did each. */
  lemma {:induction false} EachSucceeded<X>(step: (Tree, X) -> Option<Tree>, t: Tree, xs: seq<X>, i: nat)
    returns (made: Tree)
    requires Each(step, t, xs).Some? && i < |xs|
    ensures step(made, xs[i]).Some?
  {
    var n := |xs| - 1;
    if i == n {
      made := Each(step, t, xs[..n]).value;
    } else {
      made := EachSucceeded(step, t, xs[..n], i);
    }
  }

  function AddDir(t: Tree, e: KeyedEntry): Option<Tree> {
    if e.entry.kind.DirEntry? then MkdirAll(t, Resolve(e.entry.relPath)) else Some(t)
  }

  function AddDirs(t: Tree, entries: seq<KeyedEntry>): Option<Tree> {
    Each(AddDir, t, entries)
  }

  /** Where file contents come from: the verified plaintext under a hash. */
  type Contents = string -> Option<bytes>

  function AddFile(content: Contents, t: Tree, pf: PlannedFile): Option<Tree> {
    var p := Resolve(pf.relPath);
    if p == [] || !EndsInName(pf.relPath) then None
    else match content(pf.hash)
      case None => None
      case Some(plain) => PutFile(t, p, FileNode(plain, Mtime(pf)))
  }

  function FileStep(content: Contents): (Tree, PlannedFile) -> Option<Tree> {
    (t, pf) => AddFile(content, t, pf)
  }

  function AddFiles(content: Contents, t: Tree, files: seq<PlannedFile>): Option<Tree> {
    Each(FileStep(content), t, files)
  }

  /** The tree `build_restore_tree` makes, I/O errors aside. */
  function BuildTree(content: Contents, m: Manifest): Option<Tree> {
    match AddDirs(EMPTY_DIR, m.entries)
    case None => None
    case Some(t) => AddFiles(content, t, PlannedOf(m.entries))
  }

  function StoreContents(env: Env, st: Store): Contents {
    hash => FileContent(env, st, hash)
  }

  /** The tree a restore of `m` from `st` yields. */
  function RestoreTree(env: Env, st: Store, m: Manifest): Option<Tree> {
    BuildTree(StoreContents(env, st), m)
  }

  // ----- What the built tree is -----

  /** The node the last of the given files leaves at `p`. */
  function LastAt(files: seq<(Path, Node)>, p: Path): Option<Node> {
    if files == [] then None
    else if files[|files| - 1].0 == p then Some(files[|files| - 1].1)
    else LastAt(files[..|files| - 1], p)
  }

  ghost predicate Covered(p: Path, dirs: seq<Path>, files: seq<(Path, Node)>) {
    || p == []
    || (exists i :: 0 <= i < |dirs| && Above(p, dirs[i]))
    || (exists i :: 0 <= i < |files| && Above(p, files[i].0))
  }

  /** The tree has exactly these directories, their ancestors and these files. */
  ghost predicate Holds(t: Tree, dirs: seq<Path>, files: seq<(Path, Node)>) {
    && WellFormed(t)
    && (forall p :: p in t <==> Covered(p, dirs, files))
    && (forall p :: p in t ==> t[p] == if LastAt(files, p).Some? then LastAt(files, p).value else DirNode)
  }

  lemma HoldsDir(t: Tree, dirs: seq<Path>, files: seq<(Path, Node)>, p: Path)
    requires Holds(t, dirs, files) && MkdirAll(t, p).Some?
    requires forall i :: 0 <= i < |files| ==> files[i].1.FileNode?
    ensures Holds(MkdirAll(t, p).value, dirs + [p], files)
  {
    MkdirAllAdds(t, p);
    var made := MkdirAll(t, p).value;
    forall x: Path ensures Covered(x, dirs + [p], files) <==> Covered(x, dirs, files) || Above(x, p) {
      CoveredSnocDir(x, dirs, p, files);
    }
    forall x | x in made && x !in t ensures LastAt(files, x).None? {
      LastAtCovered(files, x);
    }
  }

  lemma CoveredSnocDir(x: Path, dirs: seq<Path>, p: Path, files: seq<(Path, Node)>)
    ensures Covered(x, dirs + [p], files) <==> Covered(x, dirs, files) || Above(x, p)
  {
    var more := dirs + [p];
    if i :| 0 <= i < |dirs| && Above(x, dirs[i]) {
      assert more[i] == dirs[i];
    }
    assert more[|dirs|] == p;
    if i :| 0 <= i < |more| && Above(x, more[i]) {
      assert i < |dirs| ==> more[i] == dirs[i];
    }
  }

  lemma CoveredSnocFile(x: Path, dirs: seq<Path>, files: seq<(Path, Node)>, f: (Path, Node))
    ensures Covered(x, dirs, files + [f]) <==> Covered(x, dirs, files) || Above(x, f.0)
  {
    var more := files + [f];
    if i :| 0 <= i < |files| && Above(x, files[i].0) {
      assert more[i] == files[i];
    }
    assert more[|files|] == f;
    if i :| 0 <= i < |more| && Above(x, more[i].0) {
      assert i < |files| ==> more[i] == files[i];
    }
  }

  lemma {:induction false} LastAtCovered(files: seq<(Path, Node)>, p: Path)
    ensures LastAt(files, p).Some? <==> exists i :: 0 <= i < |files| && files[i].0 == p
    ensures LastAt(files, p).Some? ==> exists i :: 0 <= i < |files| && files[i] == (p, LastAt(files, p).value)
  {
    if files != [] {
      var n := |files| - 1;
      if files[n].0 != p {
        LastAtCovered(files[..n], p);
        assert forall i :: 0 <= i < n ==> files[..n][i] == files[i];
      } else {
        assert files[n] == (p, files[n].1);
      }
    }
  }

  lemma HoldsFile(t: Tree, dirs: seq<Path>, files: seq<(Path, Node)>, p: Path, node: Node)
    requires Holds(t, dirs, files) && p != [] && PutFile(t, p, node).Some? && node.FileNode?
    requires forall i :: 0 <= i < |files| ==> files[i].1.FileNode?
    ensures Holds(PutFile(t, p, node).value, dirs, files + [(p, node)])
  {
    var put := PutFile(t, p, node).value;
    var more := files + [(p, node)];
    PutFileAdds(t, p, node);
    forall x ensures x in put <==> Covered(x, dirs, more) {
      CoveredSnocFile(x, dirs, files, (p, node));
    }
    assert more[..|files|] == files;
    forall x | x in put
      ensures put[x] == if LastAt(more, x).Some? then LastAt(more, x).value else DirNode
    {
      if x != p && x !in t {
        LastAtCovered(files, x);
      }
    }
  }

  function DirPaths(entries: seq<KeyedEntry>): seq<Path> {
    if entries == [] then []
    else
      var (init, e) := (entries[..|entries| - 1], entries[|entries| - 1].entry);
      if e.kind.DirEntry? then DirPaths(init) + [Resolve(e.relPath)] else DirPaths(init)
  }

  /** The file one planned entry writes, with the content its blob verifies to. */
  function NodeFor(content: Contents, pf: PlannedFile): (Path, Node) {
    (Resolve(pf.relPath),
     FileNode(match content(pf.hash) case Some(c) => c case None => [], Mtime(pf)))
  }

  function FileNodes(content: Contents, files: seq<PlannedFile>): seq<(Path, Node)> {
    seq(|files|, i requires 0 <= i < |files| => NodeFor(content, files[i]))
  }

  lemma {:induction false} AddDirsHolds(entries: seq<KeyedEntry>)
    requires AddDirs(EMPTY_DIR, entries).Some?
    ensures Holds(AddDirs(EMPTY_DIR, entries).value, DirPaths(entries), [])
  {
    if entries != [] {
      var init, e := entries[..|entries| - 1], entries[|entries| - 1].entry;
      AddDirsHolds(init);
      if e.kind.DirEntry? {
        HoldsDir(AddDirs(EMPTY_DIR, init).value, DirPaths(init), [], Resolve(e.relPath));
      }
    }
  }

  lemma AddFileHolds(content: Contents, t: Tree, dirs: seq<Path>, nodes: seq<(Path, Node)>, pf: PlannedFile)
    requires Holds(t, dirs, nodes) && AddFile(content, t, pf).Some?
    requires forall i :: 0 <= i < |nodes| ==> nodes[i].1.FileNode?
    ensures Holds(AddFile(content, t, pf).value, dirs, nodes + [NodeFor(content, pf)])
    ensures forall p :: p in t && t[p].DirNode? ==>
              p in AddFile(content, t, pf).value && AddFile(content, t, pf).value[p].DirNode?
  {
    var (p, node) := NodeFor(content, pf);
    HoldsFile(t, dirs, nodes, p, node);
    PutFileAdds(t, p, node);
    MkdirAllAdds(t, Parent(p));
  }

  lemma FileNodesSnoc(content: Contents, files: seq<PlannedFile>)
    requires files != []
    ensures FileNodes(content, files) ==
              FileNodes(content, files[..|files| - 1]) + [NodeFor(content, files[|files| - 1])]
  {
  }

  lemma {:induction false} AddFilesHolds(content: Contents, t: Tree, dirs: seq<Path>, files: seq<PlannedFile>)
    requires Holds(t, dirs, []) && AddFiles(content, t, files).Some?
    ensures Holds(AddFiles(content, t, files).value, dirs, FileNodes(content, files))
  {
    if files == [] {
      assert FileNodes(content, files) == [];
    } else {
      var init, last := files[..|files| - 1], files[|files| - 1];
      AddFilesHolds(content, t, dirs, init);
      var made := AddFiles(content, t, init).value;
      assert FileStep(content)(made, last) == AddFile(content, made, last);
      AddFileHolds(content, made, dirs, FileNodes(content, init), last);
      FileNodesSnoc(content, files);
    }
  }

  lemma {:induction false} AddFilesKeepsDir(content: Contents, t: Tree, files: seq<PlannedFile>, p: Path)
    requires WellFormed(t) && p in t && t[p].DirNode? && AddFiles(content, t, files).Some?
    ensures var made := AddFiles(content, t, files).value; WellFormed(made) && p in made && made[p].DirNode?
  {
    if files != [] {
      var n := |files| - 1;
      AddFilesKeepsDir(content, t, files[..n], p);
      var made := AddFiles(content, t, files[..n]).value;
      var (q, node) := NodeFor(content, files[n]);
      PutFileAdds(made, q, node);
      MkdirAllAdds(made, Parent(q));
    }
  }

  lemma AddFilesContents(content: Contents, t: Tree, files: seq<PlannedFile>)
    requires AddFiles(content, t, files).Some?
    ensures forall i :: 0 <= i < |files| ==> content(files[i].hash).Some?
  {
    forall i | 0 <= i < |files| ensures content(files[i].hash).Some? {
      var made := EachSucceeded(FileStep(content), t, files, i);
      assert FileStep(content)(made, files[i]) == AddFile(content, made, files[i]);
    }
  }

  /** The restored tree is exactly the manifest's directories, their ancestors, and its planned files. */
  lemma BuildTreeHolds(content: Contents, m: Manifest)
    requires BuildTree(content, m).Some?
    ensures Holds(BuildTree(content, m).value, DirPaths(m.entries), FileNodes(content, PlannedOf(m.entries)))
    ensures forall i :: 0 <= i < |PlannedOf(m.entries)| ==> content(PlannedOf(m.entries)[i].hash).Some?
    ensures forall i :: 0 <= i < |DirPaths(m.entries)| ==>
              var p := DirPaths(m.entries)[i];
              p in BuildTree(content, m).value && BuildTree(content, m).value[p].DirNode?
  {
    AddDirsHolds(m.entries);
    var t := AddDirs(EMPTY_DIR, m.entries).value;
    AddFilesHolds(content, t, DirPaths(m.entries), PlannedOf(m.entries));
    AddFilesContents(content, t, PlannedOf(m.entries));
    forall i | 0 <= i < |DirPaths(m.entries)|
      ensures var p := DirPaths(m.entries)[i];
              p in BuildTree(content, m).value && BuildTree(content, m).value[p].DirNode?
    {
      var p := DirPaths(m.entries)[i];
      assert Above(p, DirPaths(m.entries)[i]);
      assert Covered(p, DirPaths(m.entries), []);
      AddFilesKeepsDir(content, t, PlannedOf(m.entries), p);
    }
  }

  // ----- Entry by entry -----

  /** The entry is a file with recorded content that goes to `p`. */
  predicate PutsFile(e: ManifestEntry, p: Path) {
    e.kind.FileEntry? && e.sha256.Some? && Resolve(e.relPath) == p
  }

  /** The last entry that goes to `p`: the one whose file is there in the end. */
  predicate LastPut(entries: seq<KeyedEntry>, i: nat, p: Path) {
    && i < |entries| && PutsFile(entries[i].entry, p)
    && forall j :: i < j < |entries| ==> !PutsFile(entries[j].entry, p)
  }

  /** The time a restored file gets: the recorded one, unless it is not after the epoch. */
  function RecordedTime(e: ManifestEntry): Option<(int, nat)> {
    if e.mtimeUnix > 0 then Some((e.mtimeUnix, e.mtimeNanos)) else None
  }

  ghost predicate IsFileOf(content: Contents, node: Node, e: ManifestEntry)
    requires e.sha256.Some?
  {
    && node.FileNode? && node.mtime == RecordedTime(e)
    && (content(e.sha256.value).Some? ==> node.content == content(e.sha256.value).value)
  }

  /** The plan leaves at each path the file of the last entry that goes there, and nothing elsewhere. */
  lemma {:induction false} LastPlanned(content: Contents, entries: seq<KeyedEntry>, p: Path) returns (i: Option<nat>)
    ensures i.None? <==> LastAt(FileNodes(content, PlannedOf(entries)), p).None?
    ensures i.None? ==> NonePuts(entries, p)
    ensures i.Some? ==>
              && LastPut(entries, i.value, p)
              && IsFileOf(content, LastAt(FileNodes(content, PlannedOf(entries)), p).value, entries[i.value].entry)
  {
    i := None;
    if entries != [] {
      var n := |entries| - 1;
      LastNodeSnoc(content, entries, p);
      if PutsFile(entries[n].entry, p) {
        i := Some(n);
      } else {
        i := LastPlanned(content, entries[..n], p);
        LastPutSnoc(entries, i, p);
      }
    }
  }

  predicate NonePuts(entries: seq<KeyedEntry>, p: Path) {
    forall k :: 0 <= k < |entries| ==> !PutsFile(entries[k].entry, p)
  }

  /** An entry that does not go to `p` changes nothing there. */
  lemma LastPutSnoc(entries: seq<KeyedEntry>, i: Option<nat>, p: Path)
    requires entries != [] && !PutsFile(entries[|entries| - 1].entry, p)
    ensures i.Some? && LastPut(entries[..|entries| - 1], i.value, p) ==>
              && LastPut(entries, i.value, p)
              && entries[i.value] == entries[..|entries| - 1][i.value]
    ensures NonePuts(entries[..|entries| - 1], p) ==> NonePuts(entries, p)
  {
    var init := entries[..|entries| - 1];
    assert forall k :: 0 <= k < |init| ==> init[k] == entries[k];
  }

  lemma LastPutUnique(entries: seq<KeyedEntry>, i: nat, j: nat, p: Path)
    requires LastPut(entries, i, p) && LastPut(entries, j, p)
    ensures i == j
  {
  }

  /** What the last entry adds to the plan. */
  lemma LastNodeSnoc(content: Contents, entries: seq<KeyedEntry>, p: Path)
    requires entries != []
    ensures var (init, e) := (entries[..|entries| - 1], entries[|entries| - 1].entry);
            var last := LastAt(FileNodes(content, PlannedOf(entries)), p);
            if PutsFile(e, p) then last.Some? && IsFileOf(content, last.value, e)
            else last == LastAt(FileNodes(content, PlannedOf(init)), p)
  {
    var n := |entries| - 1;
    var init, e, files := entries[..n], entries[n].entry, PlannedOf(entries);
    if e.kind.FileEntry? && e.sha256.Some? {
      FileNodesSnoc(content, files);
      assert files[..|files| - 1] == PlannedOf(init);
      var nodes := FileNodes(content, files);
      assert nodes[..|nodes| - 1] == FileNodes(content, PlannedOf(init));
      assert nodes[|nodes| - 1] == NodeFor(content, files[|files| - 1]);
    }
  }

  /** The directories made are those of the directory entries. */
  lemma {:induction false} DirPathsExact(entries: seq<KeyedEntry>, p: Path)
    ensures p in DirPaths(entries) <==>
            exists i :: 0 <= i < |entries| && entries[i].entry.kind.DirEntry? && Resolve(entries[i].entry.relPath) == p
  {
    if entries != [] {
      var n := |entries| - 1;
      DirPathsExact(entries[..n], p);
      assert forall i :: 0 <= i < n ==> entries[..n][i] == entries[i];
    }
  }

  /** Every file entry sits at its path with the hash the manifest records for it. */
  ghost predicate EveryFileAsRecorded(sha: bytes -> string, t: Tree, m: Manifest) {
    forall i :: 0 <= i < |m.entries| ==>
      var e := m.entries[i].entry;
      e.kind.FileEntry? && e.sha256.Some? ==> FileWith(sha, t, Resolve(e.relPath), e.sha256.value)
  }

  ghost predicate FileWith(sha: bytes -> string, t: Tree, p: Path, hash: string) {
    p in t && t[p].FileNode? && sha(t[p].content) == hash
  }

  /** File entries that resolve to one path record one hash. */
  ghost predicate Agreeing(m: Manifest) {
    forall i, j, p :: 0 <= i < |m.entries| && 0 <= j < |m.entries| ==>
      PutsFile(m.entries[i].entry, p) && PutsFile(m.entries[j].entry, p) ==>
        m.entries[i].entry.sha256 == m.entries[j].entry.sha256
  }

  /**
    The tree the manifest describes: each directory entry's directory, at each file entry's path
    the file of the last entry that goes there with its recorded hash and time, and nothing that
    is not at or above the path of an entry.
   */
  ghost predicate Reproduces(sha: bytes -> string, m: Manifest, t: Tree) {
    && (forall i :: 0 <= i < |m.entries| && m.entries[i].entry.kind.DirEntry? ==>
          DirIn(t, Resolve(m.entries[i].entry.relPath)))
    && (forall i: nat, p :: LastPut(m.entries, i, p) ==>
          && FileWith(sha, t, p, m.entries[i].entry.sha256.value)
          && t[p].mtime == RecordedTime(m.entries[i].entry))
    && (forall p :: p in t && p != [] ==> exists i :: 0 <= i < |m.entries| && AtOrAbove(p, m.entries[i].entry))
    && (forall p :: p in t && !t[p].DirNode? ==> exists i :: 0 <= i < |m.entries| && PutsFile(m.entries[i].entry, p))
  }

  ghost predicate DirIn(t: Tree, p: Path) {
    p in t && t[p].DirNode?
  }

  /** The path leads to a directory entry or to a file entry with recorded content. */
  predicate AtOrAbove(p: Path, e: ManifestEntry) {
    Above(p, Resolve(e.relPath)) && (e.kind.FileEntry? ==> e.sha256.Some?)
  }

  /** Contents are only given out under their own hash. */
  ghost predicate Verified(sha: bytes -> string, content: Contents) {
    forall h :: content(h).Some? ==> sha(content(h).value) == h
  }

  lemma {:induction false} PlannedContent(content: Contents, entries: seq<KeyedEntry>, i: nat)
    requires forall k :: 0 <= k < |PlannedOf(entries)| ==> content(PlannedOf(entries)[k].hash).Some?
    requires i < |entries| && entries[i].entry.kind.FileEntry? && entries[i].entry.sha256.Some?
    ensures content(entries[i].entry.sha256.value).Some?
  {
    var n := |entries| - 1;
    if i == n {
      assert PlannedOf(entries)[|PlannedOf(entries)| - 1].hash == entries[n].entry.sha256.value;
    } else {
      assert entries[..n][i] == entries[i];
      assert forall k :: 0 <= k < |PlannedOf(entries[..n])| ==> PlannedOf(entries[..n])[k] == PlannedOf(entries)[k];
      PlannedContent(content, entries[..n], i);
    }
  }

  /** The last entry that goes to a path of a built tree has its file there. */
  lemma BuiltAt(sha: bytes -> string, content: Contents, m: Manifest, p: Path, i: nat)
    requires Verified(sha, content) && BuildTree(content, m).Some? && LastPut(m.entries, i, p)
    ensures var t := BuildTree(content, m).value;
            && FileWith(sha, t, p, m.entries[i].entry.sha256.value)
            && t[p].mtime == RecordedTime(m.entries[i].entry)
  {
    BuildTreeHolds(content, m);
    var nodes := FileNodes(content, PlannedOf(m.entries));
    HeldAt(BuildTree(content, m).value, DirPaths(m.entries), nodes, p);
    var k := LastPlanned(content, m.entries, p);
    LastPutUnique(m.entries, i, k.value, p);
    PlannedContent(content, m.entries, i);
  }

  /** What is no directory was put there by an entry. */
  lemma BuiltFile(content: Contents, m: Manifest, p: Path)
    requires BuildTree(content, m).Some?
    requires p in BuildTree(content, m).value && !BuildTree(content, m).value[p].DirNode?
    ensures exists i :: 0 <= i < |m.entries| && PutsFile(m.entries[i].entry, p)
  {
    BuildTreeHolds(content, m);
    var nodes := FileNodes(content, PlannedOf(m.entries));
    HeldAt(BuildTree(content, m).value, DirPaths(m.entries), nodes, p);
    var k := LastPlanned(content, m.entries, p);
    assert PutsFile(m.entries[k.value].entry, p);
  }

  lemma HeldAt(t: Tree, dirs: seq<Path>, nodes: seq<(Path, Node)>, p: Path)
    requires Holds(t, dirs, nodes)
    ensures LastAt(nodes, p).Some? ==> p in t && t[p] == LastAt(nodes, p).value
    ensures LastAt(nodes, p).None? && p in t ==> t[p].DirNode?
  {
    if LastAt(nodes, p).Some? {
      LastAtCovered(nodes, p);
      var k :| 0 <= k < |nodes| && nodes[k] == (p, LastAt(nodes, p).value);
      assert Above(p, nodes[k].0);
      assert Covered(p, dirs, nodes);
    }
  }

  lemma {:induction false} PlannedFrom(entries: seq<KeyedEntry>, k: nat) returns (i: nat)
    requires k < |PlannedOf(entries)|
    ensures i < |entries| && PutsFile(entries[i].entry, Resolve(PlannedOf(entries)[k].relPath))
  {
    var n := |entries| - 1;
    if k < |PlannedOf(entries[..n])| {
      i := PlannedFrom(entries[..n], k);
    } else {
      i := n;
    }
  }

  lemma BuiltOnly(content: Contents, m: Manifest, p: Path)
    requires BuildTree(content, m).Some? && p in BuildTree(content, m).value && p != []
    ensures exists i :: 0 <= i < |m.entries| && AtOrAbove(p, m.entries[i].entry)
  {
    BuildTreeHolds(content, m);
    var dirs, files := DirPaths(m.entries), PlannedOf(m.entries);
    if k :| 0 <= k < |dirs| && Above(p, dirs[k]) {
      DirPathsExact(m.entries, dirs[k]);
    } else {
      var k :| 0 <= k < |FileNodes(content, files)| && Above(p, FileNodes(content, files)[k].0);
      var i := PlannedFrom(m.entries, k);
      assert AtOrAbove(p, m.entries[i].entry);
    }
  }

  /** A tree that gets built is the one the manifest describes. */
  lemma BuildReproduces(sha: bytes -> string, content: Contents, m: Manifest)
    requires Verified(sha, content) && BuildTree(content, m).Some?
    ensures Reproduces(sha, m, BuildTree(content, m).value)
  {
    var t := BuildTree(content, m).value;
    BuildTreeHolds(content, m);
    forall i | 0 <= i < |m.entries| && m.entries[i].entry.kind.DirEntry?
      ensures DirIn(t, Resolve(m.entries[i].entry.relPath))
    {
      DirPathsExact(m.entries, Resolve(m.entries[i].entry.relPath));
    }
    forall p, i: nat | LastPut(m.entries, i, p)
      ensures FileWith(sha, t, p, m.entries[i].entry.sha256.value) && t[p].mtime == RecordedTime(m.entries[i].entry)
    {
      BuiltAt(sha, content, m, p, i);
    }
    forall p | p in t && p != [] ensures exists i :: 0 <= i < |m.entries| && AtOrAbove(p, m.entries[i].entry) {
      BuiltOnly(content, m, p);
    }
    forall p | p in t && !t[p].DirNode?
      ensures exists i :: 0 <= i < |m.entries| && PutsFile(m.entries[i].entry, p)
    {
      BuiltFile(content, m, p);
    }
  }

  lemma {:induction false} LastAfter(entries: seq<KeyedEntry>, i: nat, p: Path) returns (k: nat)
    requires i < |entries| && PutsFile(entries[i].entry, p)
    ensures i <= k && LastPut(entries, k, p)
    decreases |entries| - i
  {
    if j :| i < j < |entries| && PutsFile(entries[j].entry, p) {
      k := LastAfter(entries, j, p);
    } else {
      k := i;
    }
  }

  /**
    A restore leaves every file as the manifest records it exactly when entries that resolve to
    the same path agree; in particular when all entries resolve to distinct paths.
   */
  lemma RestoreExactIff(sha: bytes -> string, m: Manifest, t: Tree)
    requires Reproduces(sha, m, t)
    ensures EveryFileAsRecorded(sha, t, m) <==> Agreeing(m)
  {
    if Agreeing(m) {
      forall i | 0 <= i < |m.entries| && m.entries[i].entry.kind.FileEntry? && m.entries[i].entry.sha256.Some?
        ensures FileWith(sha, t, Resolve(m.entries[i].entry.relPath), m.entries[i].entry.sha256.value)
      {
        var k := LastAfter(m.entries, i, Resolve(m.entries[i].entry.relPath));
      }
    }
  }

  /**
    A restored tree is the one the manifest describes; every file has the recorded hash just when
    entries that share a path share the hash.
   */
  lemma RestoredExactly(env: Env, st: Store, m: Manifest)
    requires RestoreTree(env, st, m).Some?
    ensures var t := RestoreTree(env, st, m).value;
            && Reproduces(env.prims.sha256Hex, m, t)
            && (EveryFileAsRecorded(env.prims.sha256Hex, t, m) <==> Agreeing(m))
  {
    var content := StoreContents(env, st);
    assert forall h :: content(h) == FileContent(env, st, h);
    BuildReproduces(env.prims.sha256Hex, content, m);
    RestoreExactIff(env.prims.sha256Hex, m, RestoreTree(env, st, m).value);
  }

  /** No path of the tree leaves the directory the tree is in. */
  ghost predicate StaysInside(t: Tree) {
    forall p, k :: p in t && 0 <= k < |p| ==> Inside(p[k])
  }

  /** What is restored from a manifest that passed its checks lies inside the target. */
  lemma RestoredStaysInside(sha: bytes -> string, m: Manifest, t: Tree)
    requires ValidManifest(m) && Reproduces(sha, m, t)
    ensures StaysInside(t)
  {
    forall p, k | p in t && 0 <= k < |p| ensures Inside(p[k]) {
      var i :| 0 <= i < |m.entries| && AtOrAbove(p, m.entries[i].entry);
      ValidPathStaysInside(m.entries[i].entry.relPath);
      assert p[k] == Resolve(m.entries[i].entry.relPath)[k];
    }
  }

  // ----- Building, swapping, restoring -----

  /**
    The directory that holds the restore target, by name, every state it went through, and whether
    an I/O error has occurred.
   */
  class ParentDir {
    var slots: map<string, Tree>
    var failed: bool
    ghost var trace: seq<map<string, Tree>>

    constructor (slots: map<string, Tree>)
      ensures this.slots == slots && trace == [slots] && !failed
    {
      this.slots, failed, trace := slots, false, [slots];
    }

    /** An operation that does not get to change anything may meet an error. */
    method Trouble() returns (broken: bool)
      requires Valid()
      modifies this`failed
      ensures failed == (old(failed) || broken)
    {
      broken := *;
      failed := failed || broken;
    }

    ghost predicate Valid()
      reads this
    {
      trace != [] && trace[|trace| - 1] == slots
    }

    /** Set one name; every change to the directory goes through here, `Remove` or `Rename`. */
    method Set(name: string, t: Tree)
      requires Valid()
      modifies this
      ensures Valid() && slots == old(slots)[name := t] && trace == old(trace) + [slots] && failed == old(failed)
    {
      slots := slots[name := t];
      trace := trace + [slots];
    }

    /** `rename`: onto a free name or an empty directory; on an error nothing changes. */
    method Rename(from: string, to: string) returns (ok: bool)
      requires Valid() && from != to
      modifies this
      ensures Valid()
      ensures ok ==>
                && from in old(slots) && (to in old(slots) ==> old(slots)[to] == EMPTY_DIR)
                && slots == (old(slots) - {from})[to := old(slots)[from]] && trace == old(trace) + [slots]
      ensures !ok ==> slots == old(slots) && trace == old(trace)
      ensures !ok ==> failed || from !in slots || (to in slots && slots[to] != EMPTY_DIR)
      ensures old(failed) ==> failed
    {
      var broken := Trouble();
      if broken || from !in slots || (to in slots && slots[to] != EMPTY_DIR) {
        return false;
      }
      slots := (slots - {from})[to := slots[from]];
      trace := trace + [slots];
      ok := true;
    }

    /** `remove_dir_all`: on an error an arbitrary remainder may be left. */
    method Remove(name: string) returns (ok: bool)
      requires Valid()
      modifies this
      ensures Valid() && SameExcept(slots, old(slots), name) && trace == old(trace) + [slots]
      ensures ok ==> slots == old(slots) - {name}
      ensures failed == (old(failed) || !ok)
    {
      var broken := Trouble();
      ok := !broken;
      if ok {
        slots := slots - {name};
      } else {
        var remainder: Tree := *;
        slots := slots[name := remainder];
      }
      trace := trace + [slots];
    }
  }

  /** The two directories agree on every name but one. */
  ghost predicate SameExcept(a: map<string, Tree>, b: map<string, Tree>, name: string) {
    forall n :: n != name ==> (n in a <==> n in b) && (n in a ==> a[n] == b[n])
  }

  /** All states from `from` on agree with `base` except at `name`. */
  ghost predicate OnlyTouched(trace: seq<map<string, Tree>>, from: nat, base: map<string, Tree>, name: string) {
    forall k :: from <= k < |trace| ==> SameExcept(trace[k], base, name)
  }

  /** `write_file_atomic_from_blob`: the bytes are hashed as they are written and checked before use. */
  method WriteFileFromBlob(env: Env, blob: Slot, expected: string) returns (r: Option<bytes>, ioFailed: bool)
    ensures if ioFailed then r.None? else r == SlotContent(env, blob, expected)
  {
    if blob.NotRegular? {
      return None, false;
    }
    var input := new Reader(blob.content);
    var temp := new Writer();
    assert blob.content[0..] == blob.content;
    var n := CopyBlobPlaintext(env.prims, env.cipher, input, temp);
    if input.failed || temp.failed {
      return None, true;
    }
    if n.None? || env.prims.sha256Hex(temp.written) != expected {
      ghost var decoded := Blobs.DecodeBlob(env.prims, env.cipher, blob.content);
      assert decoded.Some? ==> [] + decoded.value == decoded.value;
      return None, false;
    }
    ghost var plain := Blobs.DecodeBlob(env.prims, env.cipher, blob.content).value;
    assert [] + plain == plain;
    r, ioFailed := Some(temp.written), false;
  }

  /** While staging: nothing but the staging directory has changed since the start. */
  ghost predicate Staging(dir: ParentDir, trace0: seq<map<string, Tree>>, slots0: map<string, Tree>, stage: string)
    reads dir
  {
    && dir.Valid()
    && |trace0| <= |dir.trace| && dir.trace[..|trace0|] == trace0
    && OnlyTouched(dir.trace, |trace0|, slots0, stage)
    && SameExcept(dir.slots, slots0, stage)
  }

  /** One change of the staging directory. */
  method StageStep(dir: ParentDir, stage: string, t: Tree, ghost trace0: seq<map<string, Tree>>,
                   ghost slots0: map<string, Tree>)
    requires Staging(dir, trace0, slots0, stage)
    modifies dir
    ensures Staging(dir, trace0, slots0, stage)
    ensures stage in dir.slots && dir.slots[stage] == t && dir.failed == old(dir.failed)
  {
    dir.Set(stage, t);
    assert dir.trace[..|trace0|] == trace0;
  }

  /** The directory loop of `build_restore_tree`. */
  method StageDirs(m: Manifest, dir: ParentDir, stage: string, ghost trace0: seq<map<string, Tree>>,
                   ghost slots0: map<string, Tree>)
    returns (ok: bool)
    requires Staging(dir, trace0, slots0, stage) && stage in dir.slots && dir.slots[stage] == EMPTY_DIR
    modifies dir
    ensures Staging(dir, trace0, slots0, stage) && stage in dir.slots
    ensures ok ==> AddDirs(EMPTY_DIR, m.entries) == Some(dir.slots[stage])
    ensures !ok ==> dir.failed || AddDirs(EMPTY_DIR, m.entries).None?
  {
    for i := 0 to |m.entries|
      invariant Staging(dir, trace0, slots0, stage) && stage in dir.slots
      invariant AddDirs(EMPTY_DIR, m.entries[..i]) == Some(dir.slots[stage])
    {
      EachSnoc(AddDir, EMPTY_DIR, m.entries, i);
      var e := m.entries[i].entry;
      if !e.kind.DirEntry? {
        continue;
      }
      var made := MkdirAll(dir.slots[stage], Resolve(e.relPath));
      var broken := dir.Trouble();
      if broken {
        return false;
      }
      if made.None? {
        EachFails(AddDir, EMPTY_DIR, m.entries, i + 1);
        return false;
      }
      StageStep(dir, stage, made.value, trace0, slots0);
    }
    assert m.entries[..|m.entries|] == m.entries;
    ok := true;
  }

  /** One turn of the file loop: parents, then the verified file. */
  method StageFile(env: Env, st: Store, pf: PlannedFile, dir: ParentDir, stage: string,
                   ghost trace0: seq<map<string, Tree>>, ghost slots0: map<string, Tree>)
    returns (ok: bool)
    requires Staging(dir, trace0, slots0, stage) && stage in dir.slots && pf.hash in st.blobs
    modifies dir
    ensures Staging(dir, trace0, slots0, stage) && stage in dir.slots
    ensures ok ==> AddFile(StoreContents(env, st), old(dir.slots[stage]), pf) == Some(dir.slots[stage])
    ensures !ok ==> dir.failed || AddFile(StoreContents(env, st), old(dir.slots[stage]), pf).None?
  {
    var p := Resolve(pf.relPath);
    var broken := dir.Trouble();
    if broken || p == [] {
      return false;
    }
    var parents := MkdirAll(dir.slots[stage], Parent(p));
    if parents.None? {
      return false;
    }
    StageStep(dir, stage, parents.value, trace0, slots0);
    var put := FetchFile(env, st, pf, dir, parents.value, old(dir.slots[stage]));
    if put.None? {
      return false;
    }
    StageStep(dir, stage, put.value, trace0, slots0);
    ok := true;
  }

  method FetchFile(env: Env, st: Store, pf: PlannedFile, dir: ParentDir, parents: Tree, ghost t: Tree)
    returns (put: Option<Tree>)
    requires pf.hash in st.blobs && Resolve(pf.relPath) != []
    requires MkdirAll(t, Parent(Resolve(pf.relPath))) == Some(parents)
    modifies dir`failed
    ensures put.Some? ==> AddFile(StoreContents(env, st), t, pf) == put && dir.failed == old(dir.failed)
    ensures put.None? ==> dir.failed || AddFile(StoreContents(env, st), t, pf).None?
  {
    var plain, ioFailed := WriteFileFromBlob(env, st.blobs[pf.hash], pf.hash);
    if ioFailed {
      dir.failed := true;
      return None;
    }
    put := PlaceFile(plain, parents, Resolve(pf.relPath), pf);
    FilePlaced(env, st, t, pf, plain);
  }

  /** The verified file goes to its place, if its path ends in a name and no directory is there. */
  function PlaceFile(plain: Option<bytes>, parents: Tree, p: Path, pf: PlannedFile): Option<Tree> {
    if plain.None? || !EndsInName(pf.relPath) || (p in parents && parents[p].DirNode?) then None
    else Some(parents[p := FileNode(plain.value, Mtime(pf))])
  }

  lemma FilePlaced(env: Env, st: Store, t: Tree, pf: PlannedFile, plain: Option<bytes>)
    requires Resolve(pf.relPath) != [] && pf.hash in st.blobs && plain == SlotContent(env, st.blobs[pf.hash], pf.hash)
    requires MkdirAll(t, Parent(Resolve(pf.relPath))).Some?
    ensures AddFile(StoreContents(env, st), t, pf) ==
            PlaceFile(plain, MkdirAll(t, Parent(Resolve(pf.relPath))).value, Resolve(pf.relPath), pf)
  {
    assert StoreContents(env, st)(pf.hash) == plain;
  }

  /** `build_restore_tree`: only the staging directory changes while it is filled. */
  method BuildRestoreTree(env: Env, st: Store, m: Manifest, planned: seq<PlannedFile>, dir: ParentDir, stage: string)
    returns (ok: bool)
    requires dir.Valid() && stage !in dir.slots && planned == PlannedOf(m.entries)
    requires forall i :: 0 <= i < |planned| ==> planned[i].hash in st.blobs
    modifies dir
    ensures Staging(dir, old(dir.trace), old(dir.slots), stage) && stage in dir.slots
    ensures ok ==> RestoreTree(env, st, m) == Some(dir.slots[stage])
    ensures !ok ==> dir.failed || RestoreTree(env, st, m).None?
  {
    ghost var trace0, slots0 := dir.trace, dir.slots;
    StageStep(dir, stage, EMPTY_DIR, trace0, slots0);
    ok := StageDirs(m, dir, stage, trace0, slots0);
    if !ok {
      return;
    }
    ghost var content, withDirs := StoreContents(env, st), dir.slots[stage];
    for i := 0 to |planned|
      invariant Staging(dir, trace0, slots0, stage) && stage in dir.slots
      invariant AddFiles(content, withDirs, planned[..i]) == Some(dir.slots[stage])
    {
      EachSnoc(FileStep(content), withDirs, planned, i);
      ok := StageFile(env, st, planned[i], dir, stage, trace0, slots0);
      if !ok {
        if !dir.failed {
          EachFails(FileStep(content), withDirs, planned, i + 1);
        }
        return;
      }
    }
    assert planned[..|planned|] == planned;
    ok := true;
  }

  /** Names of the restore target, of the staging directory and of the set-aside original. */
  datatype Places = Places(target: string, stage: string, prev: string)
  {
    predicate Distinct() {
      target != stage && target != prev && stage != prev
    }
  }

  /** The original tree is at the target or set aside. */
  ghost predicate OriginalKept(slots: map<string, Tree>, original: Option<Tree>, at: Places) {
    original.Some? ==>
      || (at.target in slots && slots[at.target] == original.value)
      || (at.prev in slots && slots[at.prev] == original.value)
  }

  /** Either the complete restored tree is in place or the original is kept; the neighbours are as they were. */
  ghost predicate Safe(slots: map<string, Tree>, slots0: map<string, Tree>, restored: Option<Tree>, at: Places) {
    && (|| (restored.Some? && At(slots, at.target) == restored)
        || OriginalKept(slots, At(slots0, at.target), at))
    && forall n :: n != at.target && n != at.stage && n != at.prev ==> At(slots, n) == At(slots0, n)
  }

  /** Every state of the directory since `trace0` is safe. */
  ghost predicate SafeRun(dir: ParentDir, trace0: seq<map<string, Tree>>, slots0: map<string, Tree>,
                          restored: Option<Tree>, at: Places)
    reads dir
  {
    && dir.Valid()
    && |trace0| <= |dir.trace| && dir.trace[..|trace0|] == trace0
    && (forall k :: |trace0| <= k < |dir.trace| ==> Safe(dir.trace[k], slots0, restored, at))
    && Safe(dir.slots, slots0, restored, at)
  }

  function At(slots: map<string, Tree>, name: string): Option<Tree> {
    if name in slots then Some(slots[name]) else None
  }

  lemma StagingIsSafe(dir: ParentDir, trace0: seq<map<string, Tree>>, slots0: map<string, Tree>,
                      restored: Option<Tree>, at: Places)
    requires Staging(dir, trace0, slots0, at.stage) && at.Distinct()
    ensures SafeRun(dir, trace0, slots0, restored, at)
  {
  }

  /** A rename between the three places, into a safe state. */
  method SafeRename(dir: ParentDir, from: string, to: string, ghost trace0: seq<map<string, Tree>>,
                    ghost slots0: map<string, Tree>, ghost restored: Option<Tree>, at: Places) returns (ok: bool)
    requires SafeRun(dir, trace0, slots0, restored, at) && from != to
    requires from in {at.target, at.stage, at.prev} && to in {at.target, at.stage, at.prev}
    requires from in dir.slots && (to in dir.slots ==> dir.slots[to] == EMPTY_DIR) ==>
               Safe((dir.slots - {from})[to := dir.slots[from]], slots0, restored, at)
    modifies dir
    ensures SafeRun(dir, trace0, slots0, restored, at)
    ensures ok ==> from in old(dir.slots) && dir.slots == (old(dir.slots) - {from})[to := old(dir.slots)[from]]
    ensures !ok ==> dir.slots == old(dir.slots)
    ensures !ok ==> dir.failed || from !in dir.slots || (to in dir.slots && dir.slots[to] != EMPTY_DIR)
    ensures old(dir.failed) ==> dir.failed
  {
    ok := dir.Rename(from, to);
    assert dir.trace[..|trace0|] == trace0;
  }

  /** There is something to set aside, and its place is taken. */
  predicate PrevTaken(slots: map<string, Tree>, at: Places) {
    at.target in slots && at.prev in slots && slots[at.prev] != EMPTY_DIR
  }

  /** `swap_staged_tree_into_place`: set the original aside, move the staged tree in, or roll back. */
  method SwapStagedTree(dir: ParentDir, at: Places, ghost trace0: seq<map<string, Tree>>,
                        ghost slots0: map<string, Tree>)
    returns (ok: bool, backup: bool)
    requires Staging(dir, trace0, slots0, at.stage) && at.Distinct() && at.stage in dir.slots
    modifies dir
    ensures SafeRun(dir, trace0, slots0, Some(old(dir.slots[at.stage])), at)
    ensures ok ==> At(dir.slots, at.target) == Some(old(dir.slots[at.stage]))
    ensures ok && at.target in slots0 ==> backup && At(dir.slots, at.prev) == At(slots0, at.target)
    ensures !ok ==> OriginalKept(dir.slots, At(slots0, at.target), at)
    ensures !ok ==> dir.failed || PrevTaken(slots0, at)
  {
    ghost var restored := Some(dir.slots[at.stage]);
    StagingIsSafe(dir, trace0, slots0, restored, at);
    backup := false;
    if at.target in dir.slots {
      ok := SafeRename(dir, at.target, at.prev, trace0, slots0, restored, at);
      if !ok {
        return;
      }
    }
    ok := SafeRename(dir, at.stage, at.target, trace0, slots0, restored, at);
    if !ok {
      if at.prev in dir.slots && at.target !in dir.slots {
        var _ := SafeRename(dir, at.prev, at.target, trace0, slots0, restored, at);
      }
      return;
    }
    backup := at.prev in dir.slots;
  }

  /** Removal of the staging directory or of the set-aside original, once that is safe. */
  method SafeRemove(dir: ParentDir, name: string, ghost trace0: seq<map<string, Tree>>,
                    ghost slots0: map<string, Tree>, ghost restored: Option<Tree>, at: Places)
    requires SafeRun(dir, trace0, slots0, restored, at) && at.Distinct()
    requires || (name == at.prev && restored.Some? && At(dir.slots, at.target) == restored)
             || (name == at.stage && OriginalKept(dir.slots, At(slots0, at.target), at))
    modifies dir
    ensures SafeRun(dir, trace0, slots0, restored, at)
    ensures At(dir.slots, at.target) == old(At(dir.slots, at.target))
    ensures name != at.prev ==> At(dir.slots, at.prev) == old(At(dir.slots, at.prev))
    ensures (old(dir.failed) ==> dir.failed) && (!dir.failed ==> name !in dir.slots)
  {
    var _ := dir.Remove(name);
    assert dir.trace[..|trace0|] == trace0;
  }

  /** What is at the name is not a directory. */
  predicate IsNoDirectory(slots: map<string, Tree>, name: string) {
    name in slots && !([] in slots[name] && slots[name][[]].DirNode?)
  }

  /** The tree a restore request stands for, if its manifest loads, passes preflight and builds. */
  function Requested(env: Env, st: Store, s: string, version: string): Option<Tree> {
    match LoadManifest(env, st, s, version)
    case None => None
    case Some(m) => if Preflight(st, m).Some? then RestoreTree(env, st, m) else None
  }

  /**
    `restore_version`.  Whatever fails, at every moment the target holds the complete restored
    tree or the original is still there, at the target or set aside; nothing else in the
    directory changes; success means the target is exactly the tree of the manifest.  It fails only
    on an I/O error or for one of the reasons that can be told beforehand.
   */
  method RestoreVersion(env: Env, st: Store, s: string, version: string, inPlace: bool, enoughSpace: bool,
                        dir: ParentDir, at: Places) returns (ok: bool)
    requires dir.Valid() && at.Distinct()
    modifies dir
    ensures SafeRun(dir, old(dir.trace), old(dir.slots), Requested(env, st, s, version), at)
    ensures ok ==>
              && LoadManifest(env, st, s, version).Some?
              && Preflight(st, LoadManifest(env, st, s, version).value).Some?
              && Requested(env, st, s, version).Some?
              && At(dir.slots, at.target) == Requested(env, st, s, version)
              && Reproduces(env.prims.sha256Hex, LoadManifest(env, st, s, version).value, dir.slots[at.target])
              && (forall i :: 0 <= i < |LoadManifest(env, st, s, version).value.entries| ==>
                    EntryAvailable(st, LoadManifest(env, st, s, version).value.entries[i].entry))
              && StaysInside(dir.slots[at.target]) && ValidVersionId(version)
              && ManifestAt(st, s, version).Some?
              && env.parseManifest(ManifestAt(st, s, version).value) == LoadManifest(env, st, s, version)
    ensures ok && !inPlace && at.target in old(dir.slots) ==> At(dir.slots, at.prev) == At(old(dir.slots), at.target)
    ensures !ok ==> OriginalKept(dir.slots, At(old(dir.slots), at.target), at)
    ensures ok && inPlace && at.target in old(dir.slots) && !dir.failed ==> at.prev !in dir.slots
    ensures !ok ==>
              || dir.failed || !enoughSpace || Requested(env, st, s, version).None?
              || IsNoDirectory(old(dir.slots), at.target) || at.stage in old(dir.slots) || PrevTaken(old(dir.slots), at)
  {
    ghost var slots0, trace0 := dir.slots, dir.trace;
    ghost var restored := Requested(env, st, s, version);
    var loaded := LoadManifest(env, st, s, version);
    if loaded.None? {
      return false;
    }
    var m := loaded.value;
    if IsNoDirectory(dir.slots, at.target) {
      return false;
    }
    var planned, _ := PreflightRestore(st, m, enoughSpace);
    if planned.None? || at.stage in dir.slots {
      return false;
    }
    PlannedAvailable(st, m.entries);
    var built := BuildRestoreTree(env, st, m, planned.value, dir, at.stage);
    if !built {
      StagingIsSafe(dir, trace0, slots0, restored, at);
      SafeRemove(dir, at.stage, trace0, slots0, restored, at);
      return false;
    }
    var swapped, backup := SwapStagedTree(dir, at, trace0, slots0);
    if !swapped {
      return false;
    }
    if backup && inPlace {
      SafeRemove(dir, at.prev, trace0, slots0, restored, at);
    }
    RestoredExactly(env, st, m);
    RestoredStaysInside(env.prims.sha256Hex, m, restored.value);
    ok := true;
  }

  lemma {:induction false} PlannedAvailable(st: Store, entries: seq<KeyedEntry>)
    requires forall i :: 0 <= i < |entries| ==> EntryAvailable(st, entries[i].entry)
    ensures forall i :: 0 <= i < |PlannedOf(entries)| ==> PlannedOf(entries)[i].hash in st.blobs
  {
    if entries != [] {
      var n := |entries| - 1;
      assert forall i :: 0 <= i < n ==> entries[..n][i] == entries[i];
      PlannedAvailable(st, entries[..n]);
      assert EntryAvailable(st, entries[n].entry);
    }
  }
}
