/**
  Restoring selected files into an existing tree: everything is decoded and verified in a staging
  directory, then every target path is checked, and only then are files replaced one by one.
 */
module RestoreFiles {
  import opened Common
  import opened Model
  import opened RelPaths
  import opened Trees
  import opened Replication
  import opened Restore

  // ----- Selection -----

  function Lookup(entries: seq<KeyedEntry>, key: string): Option<ManifestEntry> {
    if entries == [] then None
    else if entries[|entries| - 1].key == key then Some(entries[|entries| - 1].entry)
    else Lookup(entries[..|entries| - 1], key)
  }

  /** The plan for one requested path, if the manifest and the store can provide it. */
  function PlanOne(st: Store, m: Manifest, rel: string): Option<PlannedFile> {
    match Lookup(m.entries, rel)
    case None => None
    case Some(e) =>
      if NamesBlob(e) && e.sha256.value in st.blobs
      then Some(PlannedFile(rel, e.sha256.value, e.mtimeUnix, e.mtimeNanos)) else None
  }

  /** A key occurs once, as in any map. */
  ghost predicate UniqueKeys(m: Manifest) {
    forall i, j :: 0 <= i < |m.entries| && 0 <= j < |m.entries| && m.entries[i].key == m.entries[j].key ==> i == j
  }

  /** The file entry under the requested key, with a blob for its hash. */
  predicate Provides(st: Store, m: Manifest, rel: string, i: nat) {
    && i < |m.entries| && m.entries[i].key == rel && m.entries[i].entry.kind.FileEntry?
    && m.entries[i].entry.sha256.Some? && m.entries[i].entry.sha256.value in st.blobs
  }

  ghost predicate Provided(st: Store, m: Manifest, rel: string) {
    exists i: nat :: Provides(st, m, rel, i)
  }

  /** The plan has the hash and time of an entry under its path. */
  ghost predicate FromEntry(st: Store, m: Manifest, pf: PlannedFile) {
    exists i: nat ::
      && Provides(st, m, pf.relPath, i)
      && m.entries[i].entry.sha256 == Some(pf.hash)
      && m.entries[i].entry.mtimeUnix == pf.mtimeUnix && m.entries[i].entry.mtimeNanos == pf.mtimeNanos
  }

  lemma {:induction false} LookupFinds(entries: seq<KeyedEntry>, key: string)
    ensures match Lookup(entries, key)
            case None => forall i :: 0 <= i < |entries| ==> entries[i].key != key
            case Some(e) => exists i :: 0 <= i < |entries| && entries[i].key == key && entries[i].entry == e
  {
    if entries != [] {
      var n := |entries| - 1;
      LookupFinds(entries[..n], key);
      assert forall i :: 0 <= i < n ==> entries[..n][i] == entries[i];
    }
  }

  /** A plan is that of the entry under the requested key; without one there is none to provide it. */
  lemma PlanIsEntry(st: Store, m: Manifest, rel: string)
    requires UniqueKeys(m)
    ensures PlanOne(st, m, rel).Some? <==> Provided(st, m, rel)
    ensures PlanOne(st, m, rel).Some? ==>
              PlanOne(st, m, rel).value.relPath == rel && FromEntry(st, m, PlanOne(st, m, rel).value)
  {
    LookupFinds(m.entries, rel);
    if PlanOne(st, m, rel).Some? {
      var i :| 0 <= i < |m.entries| && m.entries[i].key == rel && m.entries[i].entry == Lookup(m.entries, rel).value;
      assert Provides(st, m, rel, i);
    }
  }


  type Planner = string -> Option<PlannedFile>

  function PlannerFor(st: Store, m: Manifest): Planner {
    rel => PlanOne(st, m, rel)
  }

  /** The plan covers the requested paths, each once. */
  predicate PlansFor(plan: Planner, rels: seq<string>, planned: seq<PlannedFile>) {
    && (forall i :: 0 <= i < |planned| ==> planned[i].relPath in rels && plan(planned[i].relPath) == Some(planned[i]))
    && (forall i, j :: 0 <= i < j < |planned| ==> planned[i].relPath != planned[j].relPath)
    && (forall rel :: rel in rels ==> exists i :: 0 <= i < |planned| && planned[i].relPath == rel)
  }

  ghost predicate All(valid: string -> bool, rels: seq<string>) {
    forall rel :: rel in rels ==> valid(rel)
  }

  ghost predicate AllPlannable(plan: Planner, rels: seq<string>) {
    forall rel :: rel in rels ==> plan(rel).Some?
  }

  /** The loop over the requested paths; a plan is for the path it was asked for. */
  method SelectLoop(valid: string -> bool, plan: Planner, rels: seq<string>) returns (r: Option<seq<PlannedFile>>)
    requires forall rel :: plan(rel).Some? ==> plan(rel).value.relPath == rel
    ensures r.Some? <==> All(valid, rels) && AllPlannable(plan, rels)
    ensures r.Some? ==> PlansFor(plan, rels, r.value) && |r.value| <= |rels|
  {
    var missing: seq<string> := [];
    var planned: seq<PlannedFile> := [];
    var seen: set<string> := {};
    for i := 0 to |rels|
      invariant |planned| <= i
      invariant forall rel :: rel in seen <==> rel in rels[..i]
      invariant All(valid, rels[..i])
      invariant missing == [] <==> AllPlannable(plan, rels[..i])
      invariant missing == [] ==> PlansFor(plan, rels[..i], planned)
    {
      var rel := rels[i];
      assert rels[..i + 1] == rels[..i] + [rel];
      if !valid(rel) {
        return None;
      }
      if rel in seen {
        PlansForAgain(plan, rels[..i], planned, rel);
        continue;
      }
      seen := seen + {rel};
      var one := plan(rel);
      if one.None? {
        missing := missing + [rel];
        continue;
      }
      if missing == [] {
        PlansForSnoc(plan, rels[..i], planned, one.value);
      }
      planned := planned + [one.value];
    }
    assert rels[..|rels|] == rels;
    if missing != [] {
      return None;
    }
    r := Some(planned);
  }

  lemma PlansForAgain(plan: Planner, rels: seq<string>, planned: seq<PlannedFile>, rel: string)
    requires rel in rels
    ensures PlansFor(plan, rels, planned) ==> PlansFor(plan, rels + [rel], planned)
    ensures AllPlannable(plan, rels + [rel]) <==> AllPlannable(plan, rels)
  {
  }

  lemma PlansForSnoc(plan: Planner, rels: seq<string>, planned: seq<PlannedFile>, pf: PlannedFile)
    requires PlansFor(plan, rels, planned) && pf.relPath !in rels && plan(pf.relPath) == Some(pf)
    ensures PlansFor(plan, rels + [pf.relPath], planned + [pf])
  {
    var more := planned + [pf];
    forall rel | rel in rels + [pf.relPath] ensures exists i :: 0 <= i < |more| && more[i].relPath == rel {
      if rel in rels {
        var i :| 0 <= i < |planned| && planned[i].relPath == rel;
        assert more[i].relPath == rel;
      } else {
        assert more[|planned|].relPath == rel;
      }
    }
  }

  /**
    The selection: it fails exactly when some path is invalid or no entry with a blob provides it,
    and plans for each path the hash and time of the entry under that key.
   */
  method SelectFiles(st: Store, m: Manifest, rels: seq<string>) returns (r: Option<seq<PlannedFile>>)
    ensures r.Some? <==> forall rel :: rel in rels ==> ValidRelPath(rel) && PlanOne(st, m, rel).Some?
    ensures r.Some? ==> PlansFor(PlannerFor(st, m), rels, r.value) && |r.value| <= |rels|
    ensures UniqueKeys(m) ==>
              (r.Some? <==> forall rel :: rel in rels ==> ValidRelPath(rel) && Provided(st, m, rel))
    ensures UniqueKeys(m) && r.Some? ==> forall k :: 0 <= k < |r.value| ==> FromEntry(st, m, r.value[k])
  {
    r := SelectLoop(ValidRelPath, PlannerFor(st, m), rels);
    if UniqueKeys(m) {
      forall rel ensures PlanOne(st, m, rel).Some? <==> Provided(st, m, rel) {
        PlanIsEntry(st, m, rel);
      }
      if r.Some? {
        forall k | 0 <= k < |r.value| ensures FromEntry(st, m, r.value[k]) {
          PlanIsEntry(st, m, r.value[k].relPath);
          assert PlannerFor(st, m)(r.value[k].relPath) == Some(r.value[k]);
        }
      }
    }
  }

  // ----- What may be seen in the restore root -----

  /** Verified contents, the planned files, and the names temporary files may get. */
  datatype Selection = Selection(content: Contents, files: seq<PlannedFile>, temps: seq<string>)
  {
    function Target(i: nat): Path
      requires i < |files|
    {
      Resolve(files[i].relPath)
    }

    /** The verified new content of a selected file that resolves to `p`. */
    predicate Replacement(p: Path, node: Node) {
      && node.FileNode?
      && exists i :: 0 <= i < |files| && Target(i) == p && content(files[i].hash) == Some(node.content)
    }

    /** A directory on the way to a selected file. */
    predicate OnTheWay(p: Path) {
      p == [] || exists i :: 0 <= i < |files| && Above(p, Parent(Target(i)))
    }

    predicate Temporary(p: Path) {
      p != [] && p[|p| - 1] in temps
    }

    /** Temporary names do not occur in selected paths. */
    predicate FreshTemps() {
      forall i, name :: 0 <= i < |files| && name in Target(i) ==> name !in temps
    }
  }

  /** The root: absent, a proper tree, or something that is not a directory. */
  ghost predicate RootShape(t: Tree) {
    t == map[] || WellFormed(t) || t.Keys == {[]}
  }

  /**
    Nothing that was there is gone; a selected file is wholly old or wholly new, every other node
    is unchanged; what was added is a directory on the way, a new file, or a temporary one.
   */
  ghost predicate Faithful(t: Tree, t0: Tree, sel: Selection) {
    && (forall p :: p in t0 ==> p in t && (t[p] == t0[p] || (t0[p].FileNode? && sel.Replacement(p, t[p]))))
    && (forall p :: p in t && p !in t0 ==>
          (t[p].DirNode? && sel.OnTheWay(p)) || sel.Replacement(p, t[p]) || (sel.Temporary(p) && t[p].FileNode?))
  }

  /** The restore root and every state it went through. */
  class RestoreRoot {
    var tree: Tree
    ghost var trace: seq<Tree>

    constructor (tree: Tree)
      ensures this.tree == tree && trace == [tree]
    {
      this.tree, trace := tree, [tree];
    }

    /** Started as `t0`, went through faithful states only, and is a proper tree now. */
    ghost predicate Running(t0: Tree, sel: Selection)
      reads this
    {
      && trace != [] && trace[0] == t0 && trace[|trace| - 1] == tree
      && RootShape(tree)
      && forall k :: 0 <= k < |trace| ==> Faithful(trace[k], t0, sel)
    }

    /** One atomic change. */
    method Become(t: Tree, ghost t0: Tree, ghost sel: Selection)
      requires Running(t0, sel) && RootShape(t) && Faithful(t, t0, sel)
      modifies this
      ensures Running(t0, sel) && tree == t
    {
      tree := t;
      trace := trace + [t];
    }
  }

  // ----- Target checks -----

  datatype Check = Fine | Refused | IoError

  /** No symlink or file on the way, and no symlink or directory at the target. */
  ghost predicate TargetOk(t: Tree, p: Path) {
    && ([] in t ==> t[[]].DirNode?)
    && (forall q :: Above(q, p) && q != p && q in t ==> t[q].DirNode?)
    && (p in t ==> t[p].FileNode?)
  }

  lemma AboveTake(q: Path, p: Path, k: nat)
    requires k <= |p|
    ensures Above(p[..k], p)
    ensures Above(q, p) && |q| == k ==> q == p[..k]
  {
  }

  /** `validate_target_path`: the walk may stop at the first missing directory. */
  method ValidateTargetPath(t: Tree, p: Path) returns (r: Check)
    requires RootShape(t) && p != []
    ensures r.Fine? ==> TargetOk(t, p)
    ensures r.Refused? ==> !TargetOk(t, p)
  {
    if [] in t && !t[[]].DirNode? {
      return Refused;
    }
    var k := 0;
    while k + 1 < |p|
      invariant 0 <= k < |p|
      invariant forall j :: 0 <= j <= k && p[..j] in t ==> t[p[..j]].DirNode?
    {
      k := k + 1;
      AboveTake(p, p, k);
      var broken: bool := *;
      if broken {
        return IoError;
      }
      if p[..k] !in t {
        break;
      }
      if !t[p[..k]].DirNode? {
        return Refused;
      }
    }
    TakenAreDirs(t, p, k);
    if p in t && !t[p].FileNode? {
      return Refused;
    }
    r := Fine;
  }

  lemma TakenAreDirs(t: Tree, p: Path, k: nat)
    requires RootShape(t) && ([] in t ==> t[[]].DirNode?) && k < |p|
    requires forall j :: 0 <= j <= k && p[..j] in t ==> t[p[..j]].DirNode?
    requires k + 1 == |p| || p[..k] !in t
    ensures forall q :: Above(q, p) && q != p && q in t ==> t[q].DirNode?
  {
    forall q | Above(q, p) && q != p && q in t ensures t[q].DirNode? {
      AboveTake(q, p, |q|);
      if |q| > k {
        if WellFormed(t) {
          assert p[..k] == q[..k];
          AboveTake(q, q, k);
          AncestorsThere(t, q, p[..k]);
          assert false;
        }
      } else {
        assert q == p[..|q|];
      }
    }
  }

  // ----- Steps -----

  /** Nothing is removed or changed, and only directories on the way are added. */
  ghost predicate OnlyDirsAdded(t: Tree, base: Tree, sel: Selection) {
    && (forall p :: p in base ==> p in t && t[p] == base[p])
    && (forall p :: p in t && p !in base ==> t[p].DirNode? && sel.OnTheWay(p))
  }

  lemma MkdirFaithful(t: Tree, t0: Tree, sel: Selection, q: Path)
    requires Faithful(t, t0, sel) && q !in t && sel.OnTheWay(q)
    ensures Faithful(t[q := DirNode], t0, sel)
  {
  }

  lemma MkdirShape(t: Tree, q: Path)
    requires WellFormed(t) && q !in t && q != [] && Parent(q) in t && t[Parent(q)].DirNode?
    ensures WellFormed(t[q := DirNode])
  {
  }

  lemma TempFaithful(t: Tree, t0: Tree, sel: Selection, temp: Path, node: Node)
    requires Faithful(t, t0, sel) && temp !in t0 && sel.Temporary(temp) && node.FileNode?
    ensures Faithful(t[temp := node], t0, sel)
  {
  }

  lemma UntempFaithful(t: Tree, t0: Tree, sel: Selection, temp: Path)
    requires Faithful(t, t0, sel) && temp !in t0
    ensures Faithful(t - {temp}, t0, sel)
  {
  }

  lemma ReplaceFaithful(t: Tree, t0: Tree, sel: Selection, p: Path, node: Node)
    requires Faithful(t, t0, sel) && sel.Replacement(p, node) && (p in t ==> t[p].FileNode?)
    ensures Faithful(t[p := node], t0, sel)
  {
  }

  lemma RemoveFileShape(t: Tree, p: Path)
    requires WellFormed(t) && p in t && t[p].FileNode?
    ensures WellFormed(t - {p})
  {
  }

  /** The root itself, if it is missing. */
  method CreateRoot(root: RestoreRoot, ghost t0: Tree, ghost sel: Selection) returns (ok: bool)
    requires root.Running(t0, sel)
    modifies root
    ensures root.Running(t0, sel) && OnlyDirsAdded(root.tree, old(root.tree), sel)
    ensures ok ==> WellFormed(root.tree)
  {
    if [] !in root.tree {
      MkdirFaithful(root.tree, t0, sel, []);
      assert root.tree == map[];
      root.Become(root.tree[[] := DirNode], t0, sel);
    }
    ok := root.tree[[]].DirNode?;
    if ok && !WellFormed(root.tree) {
      assert root.tree == map[[] := DirNode];
    }
  }

  /** One directory on the way: kept if there, refused if it is something else, made if missing. */
  method CreateDir(root: RestoreRoot, q: Path, ghost t0: Tree, ghost sel: Selection, ghost base: Tree)
    returns (ok: bool)
    requires root.Running(t0, sel) && WellFormed(root.tree) && sel.OnTheWay(q) && OnlyDirsAdded(root.tree, base, sel)
    requires q != [] && Parent(q) in root.tree && root.tree[Parent(q)].DirNode?
    modifies root
    ensures root.Running(t0, sel) && WellFormed(root.tree)
    ensures OnlyDirsAdded(root.tree, base, sel)
    ensures ok ==> q in root.tree && root.tree[q].DirNode?
  {
    if q in root.tree {
      return root.tree[q].DirNode?;
    }
    ok := *;
    if ok {
      MkdirFaithful(root.tree, t0, sel, q);
      MkdirShape(root.tree, q);
      root.Become(root.tree[q := DirNode], t0, sel);
    }
  }

  lemma PrefixOnTheWay(sel: Selection, i: nat, k: nat)
    requires i < |sel.files| && 0 < k < |sel.Target(i)|
    ensures sel.OnTheWay(sel.Target(i)[..k]) && Parent(sel.Target(i)[..k]) == sel.Target(i)[..k - 1]
  {
    assert sel.Target(i)[..k] == Parent(sel.Target(i))[..k];
    assert Above(sel.Target(i)[..k], Parent(sel.Target(i)));
  }

  /** The directories on the way to one selected file, below an existing root. */
  method CreateParents(root: RestoreRoot, i: nat, ghost t0: Tree, sel: Selection, ghost base: Tree)
    returns (ok: bool)
    requires i < |sel.files| && sel.Target(i) != []
    requires root.Running(t0, sel) && WellFormed(root.tree) && OnlyDirsAdded(root.tree, base, sel)
    modifies root
    ensures root.Running(t0, sel) && WellFormed(root.tree) && OnlyDirsAdded(root.tree, base, sel)
    ensures ok ==> Parent(sel.Target(i)) in root.tree && root.tree[Parent(sel.Target(i))].DirNode?
  {
    var p := sel.Target(i);
    var k := 0;
    ok := true;
    while k + 1 < |p|
      invariant 0 <= k < |p|
      invariant root.Running(t0, sel) && WellFormed(root.tree) && OnlyDirsAdded(root.tree, base, sel)
      invariant p[..k] in root.tree && root.tree[p[..k]].DirNode?
    {
      k := k + 1;
      PrefixOnTheWay(sel, i, k);
      ok := CreateDir(root, p[..k], t0, sel, base);
      if !ok {
        return;
      }
    }
  }

  /** `create_safe_target_parents`: one directory at a time, then the target is checked again. */
  method CreateSafeTargetParents(root: RestoreRoot, i: nat, ghost t0: Tree, sel: Selection) returns (ok: bool)
    requires i < |sel.files| && sel.Target(i) != [] && root.Running(t0, sel)
    modifies root
    ensures root.Running(t0, sel) && OnlyDirsAdded(root.tree, old(root.tree), sel)
    ensures ok ==>
              && WellFormed(root.tree) && TargetOk(root.tree, sel.Target(i))
              && Parent(sel.Target(i)) in root.tree && root.tree[Parent(sel.Target(i))].DirNode?
  {
    var broken: bool := *;
    if broken {
      return false;
    }
    ok := CreateRoot(root, t0, sel);
    if !ok {
      return;
    }
    ok := CreateParents(root, i, t0, sel, old(root.tree));
    if !ok {
      return;
    }
    var check := ValidateTargetPath(root.tree, sel.Target(i));
    ok := check.Fine?;
  }

  /** A change of the temporary file. */
  method WriteTemp(root: RestoreRoot, temp: Path, node: Node, ghost t0: Tree, ghost sel: Selection)
    requires root.Running(t0, sel) && WellFormed(root.tree) && temp !in t0 && sel.Temporary(temp) && node.FileNode?
    requires temp in root.tree ==> root.tree[temp].FileNode?
    requires Parent(temp) in root.tree && root.tree[Parent(temp)].DirNode?
    modifies root
    ensures root.Running(t0, sel) && WellFormed(root.tree) && root.tree == old(root.tree)[temp := node]
  {
    TempFaithful(root.tree, t0, sel, temp, node);
    PutKeepsShape(root.tree, temp, node);
    root.Become(root.tree[temp := node], t0, sel);
  }

  /** Dropping the temporary file may itself fail. */
  method DropTemp(root: RestoreRoot, temp: Path, ghost t0: Tree, ghost sel: Selection)
    requires root.Running(t0, sel) && WellFormed(root.tree) && temp !in t0 && temp in root.tree &&
               root.tree[temp].FileNode?
    modifies root
    ensures root.Running(t0, sel)
  {
    var removed: bool := *;
    if removed {
      UntempFaithful(root.tree, t0, sel, temp);
      RemoveFileShape(root.tree, temp);
      root.Become(root.tree - {temp}, t0, sel);
    }
  }

  /** The temporary file is created, written and stamped; a failure drops it. */
  method FillTemp(root: RestoreRoot, temp: Path, node: Node, ghost t0: Tree, ghost sel: Selection) returns (ok: bool)
    requires root.Running(t0, sel) && WellFormed(root.tree) && temp !in t0 && temp !in root.tree
    requires sel.Temporary(temp) && node.FileNode?
    requires Parent(temp) in root.tree && root.tree[Parent(temp)].DirNode?
    modifies root
    ensures root.Running(t0, sel)
    ensures ok ==> root.tree == old(root.tree)[temp := node]
  {
    var partial: bytes := *;
    ok := WriteOrDrop(root, temp, FileNode([], None), t0, sel);
    if ok {
      ok := WriteOrDrop(root, temp, FileNode(partial, None), t0, sel);
    }
    if ok {
      ok := WriteOrDrop(root, temp, node, t0, sel);
    }
  }

  /** One change of the temporary file, after which it may have to be given up. */
  method WriteOrDrop(root: RestoreRoot, temp: Path, node: Node, ghost t0: Tree, ghost sel: Selection) returns (ok: bool)
    requires root.Running(t0, sel) && WellFormed(root.tree) && temp !in t0 && sel.Temporary(temp) && node.FileNode?
    requires temp in root.tree ==> root.tree[temp].FileNode?
    requires Parent(temp) in root.tree && root.tree[Parent(temp)].DirNode?
    modifies root
    ensures root.Running(t0, sel)
    ensures ok ==> WellFormed(root.tree) && root.tree == old(root.tree)[temp := node]
  {
    WriteTemp(root, temp, node, t0, sel);
    ok := *;
    if !ok {
      DropTemp(root, temp, t0, sel);
    }
  }

  /** The finished temporary file takes the place of the target in one step. */
  method Persist(root: RestoreRoot, temp: Path, p: Path, ghost before: Tree, ghost t0: Tree, ghost sel: Selection)
    requires root.Running(t0, sel) && temp !in t0 && temp in root.tree && temp != p && p != []
    requires root.tree - {temp} == before && WellFormed(before)
    requires Parent(p) in before && before[Parent(p)].DirNode? && (p in before ==> before[p].FileNode?)
    requires sel.Replacement(p, root.tree[temp])
    modifies root
    ensures root.Running(t0, sel) && root.tree == before[p := old(root.tree)[temp]]
  {
    assert Faithful(root.trace[|root.trace| - 1], t0, sel);
    UntempFaithful(root.tree, t0, sel, temp);
    ReplaceFaithful(before, t0, sel, p, root.tree[temp]);
    PutKeepsShape(before, p, root.tree[temp]);
    root.Become((root.tree - {temp})[p := root.tree[temp]], t0, sel);
  }

  /** `replace_file_from_staged`: the temporary file is complete before it takes the target's place. */
  method ReplaceFileFromStaged(root: RestoreRoot, i: nat, content: bytes, temp: string, ghost t0: Tree, sel: Selection)
    returns (ok: bool)
    requires i < |sel.files| && sel.Target(i) != [] && sel.FreshTemps() && temp in sel.temps
    requires root.Running(t0, sel) && WellFormed(root.tree) && TargetOk(root.tree, sel.Target(i))
    requires Parent(sel.Target(i)) in root.tree && root.tree[Parent(sel.Target(i))].DirNode?
    requires sel.Replacement(sel.Target(i), FileNode(content, Mtime(sel.files[i])))
    modifies root
    ensures root.Running(t0, sel)
    ensures ok ==> root.tree == old(root.tree)[sel.Target(i) := FileNode(content, Mtime(sel.files[i]))]
  {
    var p := sel.Target(i);
    var temporary := Parent(p) + [temp];
    assert Parent(temporary) == Parent(p);
    assert p[|p| - 1] in p && temporary != p;
    var broken: bool := *;
    if broken || temporary in root.tree {
      return false;
    }
    ghost var before := root.tree;
    assert Faithful(root.trace[|root.trace| - 1], t0, sel);
    ok := FillTemp(root, temporary, FileNode(content, Mtime(sel.files[i])), t0, sel);
    if !ok {
      return;
    }
    assert root.tree - {temporary} == before;
    Persist(root, temporary, p, before, t0, sel);
  }

  // ----- The whole operation -----

  /** The staging loop: all selected contents are decoded and verified. */
  method StageSelected(env: Env, st: Store, planned: seq<PlannedFile>) returns (staged: Option<Tree>, ioFailed: bool)
    requires forall i :: 0 <= i < |planned| ==> planned[i].hash in st.blobs
    ensures if ioFailed then staged.None? else staged == AddFiles(StoreContents(env, st), EMPTY_DIR, planned)
  {
    ghost var content := StoreContents(env, st);
    var stage := EMPTY_DIR;
    for i := 0 to |planned|
      invariant AddFiles(content, EMPTY_DIR, planned[..i]) == Some(stage)
    {
      EachSnoc(FileStep(content), EMPTY_DIR, planned, i);
      assert FileStep(content)(stage, planned[i]) == AddFile(content, stage, planned[i]);
      var put;
      put, ioFailed := StageOne(env, st, planned[i], stage);
      if put.None? {
        if !ioFailed {
          EachFails(FileStep(content), EMPTY_DIR, planned, i + 1);
        }
        return None, ioFailed;
      }
      stage := put.value;
    }
    assert planned[..|planned|] == planned;
    staged, ioFailed := Some(stage), false;
  }

  method StageOne(env: Env, st: Store, pf: PlannedFile, stage: Tree) returns (put: Option<Tree>, ioFailed: bool)
    requires pf.hash in st.blobs
    ensures if ioFailed then put.None? else put == AddFile(StoreContents(env, st), stage, pf)
  {
    var p := Resolve(pf.relPath);
    var broken: bool := *;
    if broken {
      return None, true;
    }
    var plain;
    plain, ioFailed := WriteFileFromBlob(env, st.blobs[pf.hash], pf.hash);
    if ioFailed {
      return None, true;
    }
    assert StoreContents(env, st)(pf.hash) == plain;
    if p == [] || plain.None? || !EndsInName(pf.relPath) {
      return None, false;
    }
    put := PutFile(stage, p, FileNode(plain.value, Mtime(pf)));
  }

  /** What the staging directory holds for a selected file. */
  lemma StagedContents(sel: Selection, staged: Tree, i: nat)
    requires AddFiles(sel.content, EMPTY_DIR, sel.files) == Some(staged) && i < |sel.files|
    ensures var p := sel.Target(i);
            && p in staged && staged[p].FileNode?
            && LastAt(FileNodes(sel.content, sel.files), p) == Some(staged[p])
            && forall mtime :: sel.Replacement(p, FileNode(staged[p].content, mtime))
  {
    var p, nodes := sel.Target(i), FileNodes(sel.content, sel.files);
    assert Holds(EMPTY_DIR, [], []);
    AddFilesHolds(sel.content, EMPTY_DIR, [], sel.files);
    AddFilesContents(sel.content, EMPTY_DIR, sel.files);
    assert nodes[i].0 == p && Above(p, nodes[i].0);
    assert Covered(p, [], nodes);
    LastAtCovered(nodes, p);
    var k :| 0 <= k < |nodes| && nodes[k] == (p, LastAt(nodes, p).value);
    assert nodes[k] == NodeFor(sel.content, sel.files[k]);
    assert sel.Target(k) == p;
  }

  /** Files replaced so far hold the staged content and their own time stamp. */
  ghost predicate Replaced(t: Tree, staged: Tree, nodes: seq<(Path, Node)>) {
    forall p :: LastAt(nodes, p).Some? ==>
      && p in staged && staged[p].FileNode? && LastAt(nodes, p).value.FileNode?
      && p in t && t[p] == FileNode(staged[p].content, LastAt(nodes, p).value.mtime)
  }

  /** Nothing temporary is left behind. */
  ghost predicate Settled(t: Tree, t0: Tree, sel: Selection) {
    forall p :: p in t && p !in t0 ==> (t[p].DirNode? && sel.OnTheWay(p)) || sel.Replacement(p, t[p])
  }

  lemma ReplacedKept(t: Tree, base: Tree, t0: Tree, sel: Selection, staged: Tree, nodes: seq<(Path, Node)>)
    requires OnlyDirsAdded(t, base, sel) && Settled(base, t0, sel) && Replaced(base, staged, nodes)
    ensures Settled(t, t0, sel) && Replaced(t, staged, nodes)
  {
  }

  lemma ReplacedSnoc(t: Tree, t0: Tree, sel: Selection, staged: Tree, nodes: seq<(Path, Node)>, last: (Path, Node))
    requires Settled(t, t0, sel) && Replaced(t, staged, nodes) && last.1.FileNode?
    requires last.0 in staged && staged[last.0].FileNode?
    requires sel.Replacement(last.0, FileNode(staged[last.0].content, last.1.mtime))
    ensures var put := t[last.0 := FileNode(staged[last.0].content, last.1.mtime)];
            Settled(put, t0, sel) && Replaced(put, staged, nodes + [last])
  {
  }

  ghost predicate Committing(sel: Selection, staged: Tree) {
    && AddFiles(sel.content, EMPTY_DIR, sel.files) == Some(staged)
    && sel.FreshTemps()
    && |sel.files| <= |sel.temps|
    && forall i :: 0 <= i < |sel.files| ==> sel.Target(i) != []
  }

  /** One turn of the replacement loop. */
  method CommitOne(root: RestoreRoot, i: nat, ghost t0: Tree, sel: Selection, staged: Tree,
                   ghost done: seq<(Path, Node)>)
    returns (ok: bool)
    requires i < |sel.files| && root.Running(t0, sel) && Committing(sel, staged)
    requires Settled(root.tree, t0, sel) && Replaced(root.tree, staged, done)
    modifies root
    ensures root.Running(t0, sel)
    ensures ok ==>
              && Settled(root.tree, t0, sel)
              && Replaced(root.tree, staged, done + [NodeFor(sel.content, sel.files[i])])
  {
    StagedContents(sel, staged, i);
    ok := CreateSafeTargetParents(root, i, t0, sel);
    if !ok {
      return;
    }
    ReplacedKept(root.tree, old(root.tree), t0, sel, staged, done);
    ghost var before := root.tree;
    ok := ReplaceFileFromStaged(root, i, staged[sel.Target(i)].content, sel.temps[i], t0, sel);
    if ok {
      ReplacedSnoc(before, t0, sel, staged, done, NodeFor(sel.content, sel.files[i]));
    }
  }

  lemma NodesSnoc(content: Contents, files: seq<PlannedFile>, i: nat)
    requires i < |files|
    ensures FileNodes(content, files)[..i + 1] == FileNodes(content, files)[..i] + [NodeFor(content, files[i])]
  {
  }

  /** The next replacement, seen from the whole list of selected files. */
  method CommitNext(root: RestoreRoot, i: nat, ghost t0: Tree, sel: Selection, staged: Tree,
                    ghost nodes: seq<(Path, Node)>)
    returns (ok: bool)
    requires i < |sel.files| && root.Running(t0, sel) && Committing(sel, staged)
    requires nodes == FileNodes(sel.content, sel.files)
    requires Settled(root.tree, t0, sel) && Replaced(root.tree, staged, nodes[..i])
    modifies root
    ensures root.Running(t0, sel)
    ensures ok ==> Settled(root.tree, t0, sel) && Replaced(root.tree, staged, nodes[..i + 1])
  {
    NodesSnoc(sel.content, sel.files, i);
    ok := CommitOne(root, i, t0, sel, staged, nodes[..i]);
  }

  method CommitAll(root: RestoreRoot, ghost t0: Tree, sel: Selection, staged: Tree) returns (ok: bool)
    requires root.Running(t0, sel) && root.tree == t0 && Committing(sel, staged)
    modifies root
    ensures root.Running(t0, sel)
    ensures ok ==> Settled(root.tree, t0, sel) && Replaced(root.tree, staged, FileNodes(sel.content, sel.files))
  {
    ghost var nodes := FileNodes(sel.content, sel.files);
    for i := 0 to |sel.files|
      invariant root.Running(t0, sel) && Settled(root.tree, t0, sel) && Replaced(root.tree, staged, nodes[..i])
    {
      ok := CommitNext(root, i, t0, sel, staged, nodes);
      if !ok {
        return;
      }
    }
    assert nodes[..|sel.files|] == nodes;
    ok := true;
  }

  /** Every selected target is checked before the first change. */
  method ValidateTargets(t: Tree, sel: Selection) returns (ok: bool, ioFailed: bool)
    requires RootShape(t) && forall i :: 0 <= i < |sel.files| ==> sel.Target(i) != []
    ensures ok ==> AllTargetsOk(t, sel.files)
    ensures !ok && !ioFailed ==> !AllTargetsOk(t, sel.files)
  {
    for i := 0 to |sel.files|
      invariant forall k :: 0 <= k < i ==> TargetOk(t, Resolve(sel.files[k].relPath))
    {
      var check := ValidateTargetPath(t, sel.Target(i));
      if !check.Fine? {
        return false, check.IoError?;
      }
    }
    ok, ioFailed := true, false;
  }

  ghost predicate AllTargetsOk(t: Tree, files: seq<PlannedFile>) {
    forall i :: 0 <= i < |files| ==> TargetOk(t, Resolve(files[i].relPath))
  }

  lemma SelectionReady(st: Store, m: Manifest, rels: seq<string>, sel: Selection)
    requires (forall rel :: rel in rels ==> ValidRelPath(rel)) && PlansFor(PlannerFor(st, m), rels, sel.files)
    requires forall rel, name :: rel in rels && name in Resolve(rel) ==> name !in sel.temps
    ensures sel.FreshTemps()
    ensures forall i :: 0 <= i < |sel.files| ==> sel.Target(i) != [] && sel.files[i].hash in st.blobs
  {
  }

  /** No selected file is outside the restore root. */
  ghost predicate TargetsInside(files: seq<PlannedFile>) {
    forall i, k :: 0 <= i < |files| && 0 <= k < |Resolve(files[i].relPath)| ==> Inside(Resolve(files[i].relPath)[k])
  }

  lemma SelectedInside(plan: Planner, rels: seq<string>, files: seq<PlannedFile>)
    requires PlansFor(plan, rels, files) && forall rel :: rel in rels ==> ValidRelPath(rel)
    ensures TargetsInside(files)
  {
    forall i, k | 0 <= i < |files| && 0 <= k < |Resolve(files[i].relPath)|
      ensures Inside(Resolve(files[i].relPath)[k])
    {
      ValidPathStaysInside(files[i].relPath);
    }
  }

  /** Some requested path is not valid, or the version cannot provide it. */
  ghost predicate Unselectable(st: Store, m: Manifest, rels: seq<string>) {
    exists rel :: rel in rels && !(ValidRelPath(rel) && PlanOne(st, m, rel).Some?)
  }

  /** Everything that comes before the first change of the restore root. */
  method Prepare(env: Env, st: Store, m: Manifest, rels: seq<string>, enoughSpace: bool, t: Tree, temps: seq<string>)
    returns (staged: Option<Tree>, planned: seq<PlannedFile>, ioFailed: bool)
    requires RootShape(t) && forall rel, name :: rel in rels && name in Resolve(rel) ==> name !in temps
    ensures staged.Some? ==>
              && PlansFor(PlannerFor(st, m), rels, planned) && |planned| <= |rels|
              && AddFiles(StoreContents(env, st), EMPTY_DIR, planned) == staged && AllTargetsOk(t, planned)
              && (forall i :: 0 <= i < |planned| ==>
                    Resolve(planned[i].relPath) != [] && FileContent(env, st, planned[i].hash).Some?)
              && Selection(StoreContents(env, st), planned, temps).FreshTemps() && TargetsInside(planned)
    ensures staged.None? && !ioFailed ==>
              || !enoughSpace || Unselectable(st, m, rels)
              || (PlansFor(PlannerFor(st, m), rels, planned) &&
                  (AddFiles(StoreContents(env, st), EMPTY_DIR, planned).None? || !AllTargetsOk(t, planned)))
  {
    staged, planned, ioFailed := None, [], false;
    var selected := SelectFiles(st, m, rels);
    if selected.None? || !enoughSpace {
      return;
    }
    planned := selected.value;
    var sel := Selection(StoreContents(env, st), planned, temps);
    SelectionReady(st, m, rels, sel);
    SelectedInside(PlannerFor(st, m), rels, planned);
    staged, ioFailed := StageSelected(env, st, planned);
    if staged.None? {
      return;
    }
    AddFilesContents(sel.content, EMPTY_DIR, planned);
    assert forall i :: 0 <= i < |planned| ==> sel.content(planned[i].hash) == FileContent(env, st, planned[i].hash);
    var fine;
    fine, ioFailed := ValidateTargets(t, sel);
    if !fine {
      staged := None;
    }
  }

  /**
    `restore_files`.  Until every content is verified and every target checked, the root is
    unchanged, and it gets no further only on an I/O error or for a reason that can be told
    beforehand; from then on every state is faithful; on success each requested file holds its
    verified content and nothing temporary is left.
   */
  method RestoreSelected(env: Env, st: Store, s: string, version: string, rels: seq<string>, enoughSpace: bool,
                         root: RestoreRoot, temps: seq<string>)
    returns (ok: bool, committed: bool, planned: seq<PlannedFile>, ioFailed: bool)
    requires RootShape(root.tree) && root.trace == [root.tree]
    requires |rels| <= |temps| && forall rel, name :: rel in rels && name in Resolve(rel) ==> name !in temps
    modifies root
    ensures !committed ==> !ok && root.trace == old(root.trace) && root.tree == old(root.tree)
    ensures root.Running(old(root.tree), Selection(StoreContents(env, st), planned, temps))
    ensures committed ==>
              && LoadManifest(env, st, s, version).Some?
              && PlansFor(PlannerFor(st, LoadManifest(env, st, s, version).value), rels, planned)
              && AllTargetsOk(old(root.tree), planned) && TargetsInside(planned)
              && (forall i :: 0 <= i < |planned| ==> FileContent(env, st, planned[i].hash).Some?)
    ensures ok ==> Settled(root.tree, old(root.tree), Selection(StoreContents(env, st), planned, temps))
    ensures ok ==> forall i :: 0 <= i < |planned| ==>
              var p := Resolve(planned[i].relPath);
              p in root.tree && Some(root.tree[p]) == LastAt(FileNodes(StoreContents(env, st), planned), p)
    ensures ok && UniqueKeys(LoadManifest(env, st, s, version).value) ==> forall rel :: rel in rels ==>
              RestoredAs(env, LoadManifest(env, st, s, version).value, root.tree, rels, rel)
    ensures !committed && !ioFailed ==>
              || rels == [] || LoadManifest(env, st, s, version).None? || !enoughSpace
              || ([] in root.tree && !root.tree[[]].DirNode?)
              || Unselectable(st, LoadManifest(env, st, s, version).value, rels)
              || (PlansFor(PlannerFor(st, LoadManifest(env, st, s, version).value), rels, planned) &&
                  (AddFiles(StoreContents(env, st), EMPTY_DIR, planned).None? || !AllTargetsOk(root.tree, planned)))
  {
    ok, committed, planned, ioFailed := false, false, [], false;
    ghost var t0 := root.tree;
    var loaded := LoadManifest(env, st, s, version);
    if rels == [] || loaded.None? || ([] in root.tree && !root.tree[[]].DirNode?) {
      return;
    }
    var staged;
    staged, planned, ioFailed := Prepare(env, st, loaded.value, rels, enoughSpace, root.tree, temps);
    if staged.None? {
      return;
    }
    committed := true;
    var sel := Selection(StoreContents(env, st), planned, temps);
    ok := CommitAll(root, t0, sel, staged.value);
    if ok {
      AllRestored(env, st, loaded.value, root.tree, rels, sel, staged.value);
    }
  }

  lemma AllRestored(env: Env, st: Store, m: Manifest, t: Tree, rels: seq<string>, sel: Selection, staged: Tree)
    requires sel.content == StoreContents(env, st) && AddFiles(sel.content, EMPTY_DIR, sel.files) == Some(staged)
    requires PlansFor(PlannerFor(st, m), rels, sel.files) && Replaced(t, staged, FileNodes(sel.content, sel.files))
    requires forall i :: 0 <= i < |sel.files| ==> FileContent(env, st, sel.files[i].hash).Some?
    ensures forall i :: 0 <= i < |sel.files| ==>
              var p := Resolve(sel.files[i].relPath);
              p in t && Some(t[p]) == LastAt(FileNodes(sel.content, sel.files), p)
    ensures UniqueKeys(m) ==> forall rel :: rel in rels ==> RestoredAs(env, m, t, rels, rel)
  {
    forall i | 0 <= i < |sel.files|
      ensures var p := Resolve(sel.files[i].relPath);
              p in t && Some(t[p]) == LastAt(FileNodes(sel.content, sel.files), p)
    {
      StagedContents(sel, staged, i);
    }
    if UniqueKeys(m) {
      forall rel | rel in rels ensures RestoredAs(env, m, t, rels, rel) {
        RestoredFromEntry(env, st, m, t, rels, sel.files, rel);
      }
    }
  }

  /** The requested file has the hash and time of the entry under its key, if no other request is for its path. */
  ghost predicate RestoredAs(env: Env, m: Manifest, t: Tree, rels: seq<string>, rel: string) {
    (forall other :: other in rels && Resolve(other) == Resolve(rel) ==> other == rel) ==>
      exists i: nat ::
        && i < |m.entries| && m.entries[i].key == rel && m.entries[i].entry.sha256.Some?
        && FileWith(env.prims.sha256Hex, t, Resolve(rel), m.entries[i].entry.sha256.value)
        && t[Resolve(rel)].mtime == RecordedTime(m.entries[i].entry)
  }

  lemma RestoredFromEntry(env: Env, st: Store, m: Manifest, t: Tree, rels: seq<string>, planned: seq<PlannedFile>,
                          rel: string)
    requires UniqueKeys(m) && PlansFor(PlannerFor(st, m), rels, planned) && rel in rels
    requires forall i :: 0 <= i < |planned| ==> FileContent(env, st, planned[i].hash).Some?
    requires forall i :: 0 <= i < |planned| ==>
               var p := Resolve(planned[i].relPath);
               p in t && Some(t[p]) == LastAt(FileNodes(StoreContents(env, st), planned), p)
    ensures RestoredAs(env, m, t, rels, rel)
  {
    if forall other :: other in rels && Resolve(other) == Resolve(rel) ==> other == rel {
      var k :| 0 <= k < |planned| && planned[k].relPath == rel;
      var nodes, p := FileNodes(StoreContents(env, st), planned), Resolve(rel);
      LastAtCovered(nodes, p);
      var j :| 0 <= j < |nodes| && nodes[j] == (p, t[p]);
      assert planned[j].relPath in rels && Resolve(planned[j].relPath) == p;
      assert planned[j].relPath == rel;
      PlanIsEntry(st, m, rel);
      assert PlannerFor(st, m)(rel) == Some(planned[j]);
      assert FromEntry(st, m, planned[j]);
      assert FileContent(env, st, planned[j].hash).Some?;
    }
  }
}
