/**
  The readable view of a source: one tree per committed version, the newest under `Latest`, the
  others under `Previous Versions`, each marked with its version id.  A sync only renames,
  materialises and removes what is out of date.
 */
module Browse {
  import opened Common
  import opened Model
  import opened RelPaths

  /** The marker file of a directory; one that cannot be read is an error. */
  datatype MarkerFile = NoMarker | Marker(id: string) | BadMarker

  /** A directory without its marker file, or something that is not a directory. */
  datatype Entry = Dir(marker: MarkerFile, body: Tree) | Other

  /** `Latest`, its staging directory beside it, and the names under `Previous Versions`. */
  datatype Place = Latest | LatestStage | Previous(name: string)

  type View = map<Place, Entry>

  /** What the store holds of a version: its tree, and a marker file its own root may contain. */
  datatype Versions = Versions(body: string -> Tree, embedded: string -> MarkerFile)

  /** The names a version can get. */
  datatype Names = Names(preferred: VersionInfo -> string, alternate: VersionInfo -> string,
    stage: VersionInfo -> string)

  predicate Owned(v: View, p: Place, id: string) {
    p in v && v[p].Dir? && v[p].marker == Marker(id) && !p.LatestStage?
  }

  predicate Unowned(e: Entry) {
    e.Dir? ==> !e.marker.Marker?
  }

  /** No version has two managed trees. */
  ghost predicate AtMostOnce(v: View) {
    forall p, q, id :: Owned(v, p, id) && Owned(v, q, id) ==> p == q
  }

  /** What carried no marker is still there, unchanged. */
  ghost predicate UnownedKept(v: View, v0: View) {
    forall p :: p in v0 && Unowned(v0[p]) && !p.LatestStage? ==> p in v && v[p] == v0[p]
  }

  /** What every step keeps; uniqueness only if staging never shows a foreign marker. */
  ghost predicate Kept(v: View, v0: View, clean: bool) {
    UnownedKept(v, v0) && (clean ==> AtMostOnce(v))
  }

  /** A managed tree a sync to these versions goes on using: for the newest one, only at `Latest`. */
  predicate Reused(v0: View, p: Place, id: string, latest: string) {
    Owned(v0, p, id) && (id == latest ==> p.Latest?)
  }

  /** No version has two trees a sync would go on using. */
  ghost predicate ReusedOnce(v0: View, ids: set<string>, latest: string) {
    forall p, q, id :: id in ids && Reused(v0, p, id, latest) && Reused(v0, q, id, latest) ==> p == q
  }

  /** What the tree of a version holds after a sync: what its tree held before, or what the store holds. */
  ghost function BodyAfter(v0: View, id: string, latest: string, versions: Versions): Tree {
    if p :| Reused(v0, p, id, latest) then v0[p].body else versions.body(id)
  }

  /** The trees a sync goes on using hold their versions. */
  ghost predicate RightStart(v0: View, ids: set<string>, latest: string, versions: Versions) {
    forall p, id :: id in ids && Reused(v0, p, id, latest) ==> v0[p].body == versions.body(id)
  }

  /** No version's own files claim to be another version. */
  ghost predicate NoForeignMarkers(ids: set<string>, versions: Versions) {
    forall id :: id in ids && versions.embedded(id).Marker? ==> versions.embedded(id).id == id
  }

  // ----- Single changes -----

  ghost predicate Managed(v: View, id: string) {
    exists p :: Owned(v, p, id)
  }

  /** Putting a directory at a free place keeps versions unique exactly when its marker is not in use. */
  lemma PutUniqueIff(v: View, p: Place, e: Entry)
    requires AtMostOnce(v) && p !in v && !p.LatestStage? && e.Dir?
    ensures AtMostOnce(v[p := e]) <==> (e.marker.Marker? ==> !Managed(v, e.marker.id))
  {
    var w := v[p := e];
    if e.marker.Marker? && Managed(v, e.marker.id) {
      var q :| Owned(v, q, e.marker.id);
      assert Owned(w, q, e.marker.id) && Owned(w, p, e.marker.id);
    } else {
      forall a, b, id | Owned(w, a, id) && Owned(w, b, id) ensures a == b {
        assert a != p ==> Owned(v, a, id);
        assert b != p ==> Owned(v, b, id);
      }
    }
  }

  lemma PutUnique(v: View, p: Place, e: Entry)
    requires AtMostOnce(v) && e.Dir?
    requires e.marker.Marker? && !p.LatestStage? ==> forall q :: Owned(v, q, e.marker.id) ==> q == p
    ensures AtMostOnce(v[p := e])
  {
    var w := v[p := e];
    forall a, b, id | Owned(w, a, id) && Owned(w, b, id) ensures a == b {
      assert a != p ==> Owned(v, a, id);
      assert b != p ==> Owned(v, b, id);
    }
  }

  lemma PutKept(v: View, v0: View, clean: bool, p: Place, e: Entry)
    requires Kept(v, v0, clean) && e.Dir?
    requires p in v0 && !p.LatestStage? ==> !Unowned(v0[p])
    requires clean && e.marker.Marker? && !p.LatestStage? ==> forall q :: Owned(v, q, e.marker.id) ==> q == p
    ensures Kept(v[p := e], v0, clean)
  {
    if clean {
      PutUnique(v, p, e);
    }
  }

  lemma RemoveUnique(v: View, p: Place)
    requires AtMostOnce(v)
    ensures AtMostOnce(v - {p})
  {
    var w := v - {p};
    forall a, b, id | Owned(w, a, id) && Owned(w, b, id) ensures a == b {
      assert Owned(v, a, id) && Owned(v, b, id);
    }
  }

  lemma RemoveKept(v: View, v0: View, clean: bool, p: Place)
    requires Kept(v, v0, clean)
    requires p in v0 && !p.LatestStage? ==> !Unowned(v0[p])
    ensures Kept(v - {p}, v0, clean)
  {
    if clean {
      RemoveUnique(v, p);
    }
  }

  lemma MoveUnique(v: View, from: Place, to: Place)
    requires AtMostOnce(v) && from in v && to !in v && v[from].Dir? && v[from].marker.Marker?
    requires from.LatestStage? ==> !Managed(v, v[from].marker.id)
    ensures AtMostOnce((v - {from})[to := v[from]])
  {
    RemoveUnique(v, from);
    forall q ensures !Owned(v - {from}, q, v[from].marker.id) {
      assert Owned(v - {from}, q, v[from].marker.id) ==> Owned(v, q, v[from].marker.id);
      assert !from.LatestStage? ==> Owned(v, from, v[from].marker.id);
    }
    PutUnique(v - {from}, to, v[from]);
  }

  lemma MoveKept(v: View, v0: View, clean: bool, from: Place, to: Place)
    requires Kept(v, v0, clean) && from in v && to !in v && v[from].Dir? && v[from].marker.Marker?
    requires from in v0 && !from.LatestStage? ==> !Unowned(v0[from])
    requires from.LatestStage? ==> !Managed(v, v[from].marker.id)
    ensures Kept((v - {from})[to := v[from]], v0, clean)
  {
    if clean {
      MoveUnique(v, from, to);
    }
  }

  /** An owned place cannot be one that was unowned. */
  lemma OwnedNotUnowned(v: View, v0: View, p: Place, id: string)
    requires UnownedKept(v, v0) && Owned(v, p, id)
    ensures p in v0 ==> !Unowned(v0[p])
  {
  }

  /** What a failed removal of a directory may leave: part of it, with or without its marker. */
  ghost predicate Leftover(w: View, v: View, p: Place) {
    && p in v && p in w && v[p].Dir? && w[p].Dir?
    && w == v[p := w[p]] && (w[p].marker == v[p].marker || w[p].marker.NoMarker?)
  }

  /** A version's own marker file was seen in a stage under `Previous Versions` that was put into this view. */
  datatype Staging = Staging(before: View, id: string, marker: MarkerFile)
  {
    /** It is the marker of a version that has a managed tree. */
    ghost predicate Clashes() {
      marker.Marker? && Managed(before, marker.id)
    }
  }

  ghost predicate NoClash(staged: seq<Staging>) {
    forall j :: 0 <= j < |staged| ==> !staged[j].Clashes()
  }

  /** A staging that did not clash leaves versions unique, one that did does not. */
  lemma ShowUnique(staged: seq<Staging>, more: seq<Staging>, before: View, stage: Place, id: string, e: Entry, v0: View)
    requires e.Dir? && more == staged + [Staging(before, id, e.marker)]
    requires stage.Previous? && stage !in before && (AtMostOnce(v0) && NoClash(staged) ==> AtMostOnce(before))
    ensures NoClash(more) ==> NoClash(staged)
    ensures AtMostOnce(v0) && NoClash(staged) ==> (NoClash(more) <==> AtMostOnce(before[stage := e]))
  {
    assert forall j :: 0 <= j < |staged| ==> more[j] == staged[j];
    assert more[|staged|] == Staging(before, id, e.marker);
    if AtMostOnce(before) {
      PutUniqueIff(before, stage, e);
    }
  }

  ghost predicate AlwaysOnce(trace: seq<View>) {
    forall k :: 0 <= k < |trace| ==> AtMostOnce(trace[k])
  }

  lemma AlwaysOnceSnoc(trace: seq<View>, v: View)
    ensures AlwaysOnce(trace + [v]) <==> AlwaysOnce(trace) && AtMostOnce(v)
  {
    var more := trace + [v];
    assert more[|trace|] == v && forall k :: 0 <= k < |trace| ==> more[k] == trace[k];
  }

  ghost predicate AlwaysKept(trace: seq<View>, v0: View) {
    forall k :: 0 <= k < |trace| ==> UnownedKept(trace[k], v0)
  }

  lemma AlwaysKeptSnoc(trace: seq<View>, v: View, v0: View)
    requires AlwaysKept(trace, v0) && UnownedKept(v, v0)
    ensures AlwaysKept(trace + [v], v0)
  {
  }

  /**
    The view's directories, whether an I/O error has occurred, every state they went through, and
    every staging that showed a version's own marker file.
   */
  class ViewDir {
    var view: View
    var failed: bool
    ghost var trace: seq<View>
    ghost var staged: seq<Staging>
    ghost const ids: set<string>
    ghost const versions: Versions

    constructor (view: View, ghost ids: set<string>, ghost versions: Versions)
      ensures this.view == view && trace == [view] && staged == [] && this.ids == ids && this.versions == versions
      ensures !failed
    {
      this.view, failed, trace, staged, this.ids, this.versions := view, false, [view], [], ids, versions;
    }

    /** Versions were unique at the start, and no staging clashed since. */
    ghost predicate Clean(v0: View)
      reads this
    {
      AtMostOnce(v0) && NoClash(staged)
    }

    /** What is recorded are files of versions of the index that had no managed tree then. */
    ghost predicate Recorded()
      reads this
    {
      forall j :: 0 <= j < |staged| ==>
        && staged[j].id in ids && staged[j].marker == versions.embedded(staged[j].id)
        && !Managed(staged[j].before, staged[j].id)
    }

    /** Nothing unowned was touched, and versions were unique in every state exactly in a clean run. */
    ghost predicate Running(v0: View)
      reads this
    {
      && trace != [] && trace[0] == v0 && trace[|trace| - 1] == view && Recorded()
      && AlwaysKept(trace, v0) && (Clean(v0) <==> AlwaysOnce(trace))
    }

    lemma KeptNow(v0: View)
      requires Running(v0)
      ensures Kept(view, v0, Clean(v0))
    {
      assert UnownedKept(trace[|trace| - 1], v0);
      assert Clean(v0) ==> AtMostOnce(trace[|trace| - 1]);
    }

    /** One atomic change. */
    method Become(v: View, ghost v0: View)
      requires Running(v0) && Kept(v, v0, Clean(v0))
      modifies this
      ensures Running(v0) && view == v && staged == old(staged) && failed == old(failed)
    {
      AlwaysOnceSnoc(trace, v);
      AlwaysKeptSnoc(trace, v, v0);
      view := v;
      trace := trace + [v];
    }

    /** An I/O error that changes nothing. */
    method Fail(ghost v0: View)
      requires Running(v0)
      modifies this`failed
      ensures Running(v0) && failed
    {
      failed := true;
    }

    /** The staging directory now shows the marker file that is among the version's own files. */
    method Show(stage: Place, id: string, e: Entry, ghost before: View, ghost v0: View)
      requires Running(v0) && Kept(before, v0, Clean(v0)) && id in ids && !Managed(before, id)
      requires stage.Previous? && stage !in before && e.Dir? && e.marker == versions.embedded(id)
      requires view == before || (stage in view && view == before[stage := view[stage]])
      modifies this
      ensures Running(v0) && view == before[stage := e] && (Clean(v0) ==> old(Clean(v0))) && failed == old(failed)
    {
      ghost var now := before[stage := e];
      ShowUnique(staged, staged + [Staging(before, id, e.marker)], before, stage, id, e, v0);
      AlwaysOnceSnoc(trace, now);
      AlwaysKeptSnoc(trace, now, v0);
      view := view[stage := e];
      assert view == now;
      trace, staged := trace + [view], staged + [Staging(before, id, e.marker)];
    }

    /** `rename` of a marked directory to a free name. */
    method Move(from: Place, to: Place, ghost v0: View) returns (ok: bool)
      requires Running(v0) && from in view && to !in view && view[from].Dir? && view[from].marker.Marker?
      requires from in v0 && !from.LatestStage? ==> !Unowned(v0[from])
      requires from.LatestStage? ==> !Managed(view, view[from].marker.id)
      modifies this
      ensures Running(v0)
      ensures view == if ok then (old(view) - {from})[to := old(view)[from]] else old(view)
      ensures failed == (old(failed) || !ok)
    {
      ok := *;
      failed := failed || !ok;
      if ok {
        KeptNow(v0);
        MoveKept(view, v0, Clean(v0), from, to);
        Become((view - {from})[to := view[from]], v0);
      }
    }

    /** `remove_dir_all`: on an error part of the directory may be left, with or without its marker. */
    method Remove(p: Place, ghost v0: View) returns (ok: bool)
      requires Running(v0) && p in view && view[p].Dir?
      requires p in v0 && !p.LatestStage? ==> !Unowned(v0[p])
      modifies this
      ensures Running(v0)
      ensures if ok then view == old(view) - {p} else Leftover(view, old(view), p)
      ensures failed == (old(failed) || !ok)
    {
      KeptNow(v0);
      ok := *;
      failed := failed || !ok;
      if ok {
        RemoveKept(view, v0, Clean(v0), p);
        Become(view - {p}, v0);
      } else {
        var unmarked: bool, rest: Tree := *, *;
        var left := Dir(if unmarked then NoMarker else view[p].marker, rest);
        if left.marker.Marker? && !p.LatestStage? {
          assert Owned(view, p, left.marker.id);
        }
        PutKept(view, v0, Clean(v0), p, left);
        Become(view[p := left], v0);
      }
    }
  }

  // ----- Materialising one version -----

  /**
    `materialize_managed_version`: build in the staging directory, mark it, move it into place.
    While it is built the staging directory shows whatever marker the version's own files contain.
   */
  method Materialize(dir: ViewDir, id: string, stage: Place, target: Place, versions: Versions,
                     ghost v0: View) returns (ok: bool)
    requires dir.Running(v0) && !Managed(dir.view, id) && stage != target && stage != Latest && target != LatestStage
    requires id in dir.ids && dir.versions == versions
    modifies dir
    ensures dir.Running(v0)
    ensures ok ==> target !in old(dir.view) && stage !in old(dir.view)
    ensures ok ==> dir.view == old(dir.view)[target := Dir(Marker(id), versions.body(id))]
    ensures !ok ==> dir.failed || (dir.view == old(dir.view) && (target in dir.view || stage in dir.view))
  {
    if target in dir.view || stage in dir.view {
      return false;
    }
    ghost var before := dir.view;
    assert forall q :: !Owned(before, q, id);
    dir.KeptNow(v0);
    ok := BuildStage(dir, id, stage, versions, before, v0);
    if ok {
      assert dir.view - {stage} == before;
      assert forall q :: q != stage && Owned(dir.view, q, id) ==> Owned(before, q, id);
      ok := dir.Move(stage, target, v0);
    }
    if !ok && stage in dir.view {
      var _ := dir.Remove(stage, v0);
    }
  }

  /** A state of the staging directory that carries no marker, or the version's. */
  method ShowStage(dir: ViewDir, id: string, stage: Place, e: Entry, ghost before: View, ghost v0: View)
    requires dir.Running(v0) && Kept(before, v0, dir.Clean(v0)) && stage !in before && !Managed(before, id)
    requires dir.view == before || (stage in dir.view && dir.view == before[stage := dir.view[stage]])
    requires e.Dir? && (e.marker.Marker? && !stage.LatestStage? ==> e.marker.id == id)
    modifies dir
    ensures dir.Running(v0) && dir.view == before[stage := e] && dir.staged == old(dir.staged)
    ensures dir.failed == old(dir.failed)
  {
    assert forall q :: !Owned(before, q, id);
    PutKept(before, v0, dir.Clean(v0), stage, e);
    assert dir.view[stage := e] == before[stage := e];
    dir.Become(dir.view[stage := e], v0);
  }

  /** A state of the staging directory that shows the marker file among the version's own files. */
  method ShowOwn(dir: ViewDir, id: string, stage: Place, e: Entry, ghost before: View, ghost v0: View)
    requires dir.Running(v0) && Kept(before, v0, dir.Clean(v0)) && stage !in before && !Managed(before, id)
    requires dir.view == before || (stage in dir.view && dir.view == before[stage := dir.view[stage]])
    requires id in dir.ids && e.Dir? && e.marker == dir.versions.embedded(id) && stage != Latest
    modifies dir
    ensures dir.Running(v0) && dir.view == before[stage := e] && Kept(before, v0, dir.Clean(v0))
    ensures dir.failed == old(dir.failed)
  {
    if stage.Previous? {
      dir.Show(stage, id, e, before, v0);
    } else {
      ShowStage(dir, id, stage, e, before, v0);
    }
  }

  method BuildStage(dir: ViewDir, id: string, stage: Place, versions: Versions, ghost before: View,
                    ghost v0: View) returns (ok: bool)
    requires dir.Running(v0) && Kept(before, v0, dir.Clean(v0)) && stage !in before && !Managed(before, id)
    requires dir.view == before && stage != Latest && id in dir.ids && dir.versions == versions
    modifies dir
    ensures dir.Running(v0)
    ensures dir.view == before ||
              (stage in dir.view && dir.view[stage].Dir? && dir.view == before[stage := dir.view[stage]])
    ensures ok ==> stage in dir.view && dir.view[stage] == Dir(Marker(id), versions.body(id))
    ensures !ok ==> dir.failed
  {
    var partial: Tree, marked: bool, broken: bool := *, *, *;
    if marked {
      ShowOwn(dir, id, stage, Dir(versions.embedded(id), partial), before, v0);
    } else {
      ShowStage(dir, id, stage, Dir(NoMarker, partial), before, v0);
    }
    if broken {
      dir.Fail(v0);
      return false;
    }
    ShowOwn(dir, id, stage, Dir(versions.embedded(id), versions.body(id)), before, v0);
    broken := *;
    if broken {
      dir.Fail(v0);
      return false;
    }
    ShowStage(dir, id, stage, Dir(Marker(id), versions.body(id)), before, v0);
    ok := true;
  }

  /** With a foreign marker the staging directory duplicates a version until it is marked itself. */
  lemma ForeignMarkerDuplicates(v: View, stage: Place, id: string, partial: Tree, versions: Versions)
    requires AtMostOnce(v) && stage.Previous? && stage !in v && !Managed(v, id)
    ensures AtMostOnce(v[stage := Dir(versions.embedded(id), partial)]) <==>
            (versions.embedded(id).Marker? ==> !Managed(v, versions.embedded(id).id))
    ensures AtMostOnce(v[stage := Dir(Marker(id), partial)])
  {
    PutUniqueIff(v, stage, Dir(versions.embedded(id), partial));
    PutUniqueIff(v, stage, Dir(Marker(id), partial));
  }

  /** For instance: `Latest` is version "b" and the files of version "a" contain a marker for "b". */
  lemma ForeignMarkerExample()
    ensures var v: View := map[Latest := Dir(Marker("b"), map[])];
            AtMostOnce(v) && !Managed(v, "a") && !AtMostOnce(v[Previous("stage") := Dir(Marker("b"), map[])])
  {
    var v: View := map[Latest := Dir(Marker("b"), map[])];
    var w := v[Previous("stage") := Dir(Marker("b"), map[])];
    assert Owned(w, Latest, "b") && Owned(w, Previous("stage"), "b");
  }

  // ----- The sync -----

  /** `available_version_path`. */
  function AvailablePath(v: View, version: VersionInfo, names: Names): Option<Place> {
    var (preferred, alternate) := (Previous(names.preferred(version)), Previous(names.alternate(version)));
    if preferred !in v then Some(preferred)
    else if v[preferred].Dir? && v[preferred].marker.BadMarker? then None
    else if Owned(v, preferred, version.id) then Some(preferred)
    else if alternate in v then None
    else Some(alternate)
  }

  /** The map from version id to its tree under `Previous Versions`. */
  ghost predicate Catalog(v: View, existing: map<string, Place>) {
    && (forall id :: id in existing ==> existing[id].Previous? && Owned(v, existing[id], id))
    && (forall p: Place, id :: p.Previous? && Owned(v, p, id) ==> id in existing && existing[id] == p)
  }

  /** `previous_versions_by_id`; it refuses a marker it cannot read and a version it finds twice. */
  method ScanPrevious(v: View) returns (r: Option<map<string, Place>>)
    ensures r.Some? ==> Catalog(v, r.value)
    ensures AtMostOnce(v) && (forall p: Place :: p in v && p.Previous? ==> !(v[p].Dir? && v[p].marker.BadMarker?)) ==>
              r.Some?
  {
    var existing: map<string, Place> := map[];
    var todo := set p | p in v && p.Previous?;
    while todo != {}
      invariant todo <= v.Keys && forall p :: p in todo ==> p.Previous?
      invariant forall id :: id in existing ==> existing[id].Previous? && Owned(v, existing[id], id)
      invariant forall p: Place, id :: p !in todo && p.Previous? && Owned(v, p, id) ==>
                  id in existing && existing[id] == p
      invariant forall id :: id in existing ==> existing[id] !in todo
      decreases |todo|
    {
      var p :| p in todo;
      todo := todo - {p};
      if v[p].Other? {
        continue;
      }
      match v[p].marker {
        case BadMarker =>
          return None;
        case NoMarker =>
        case Marker(id) =>
          assert Owned(v, p, id);
          if id in existing {
            assert Owned(v, existing[id], id);
            return None;
          }
          existing := existing[id := p];
      }
    }
    r := Some(existing);
  }

  /** The entries of the index that are not the newest version. */
  function OtherThan(list: seq<VersionInfo>, id: string): (r: seq<VersionInfo>)
    ensures forall x :: x in r <==> x in list && x.id != id
  {
    if list == [] then []
    else
      var init := OtherThan(list[..|list| - 1], id);
      var last := list[|list| - 1];
      assert list == list[..|list| - 1] + [last];
      if last.id == id then init else init + [last]
  }

  predicate DistinctNames(names: Names, list: seq<VersionInfo>) {
    forall x, y :: x in list && y in list ==>
      names.stage(x) != names.preferred(y) && names.stage(x) != names.alternate(y)
  }

  /** Trees carried over so far hold what they will hold in the end, and none of those to reuse is gone. */
  ghost predicate Carried(v: View, v0: View, ids: set<string>, latest: string, versions: Versions) {
    && (forall p, id :: id in ids && Reused(v, p, id, latest) ==> v[p].body == BodyAfter(v0, id, latest, versions))
    && (forall q, id :: id in ids && Reused(v0, q, id, latest) ==> exists p :: Reused(v, p, id, latest))
  }

  /** Neither the preferred nor the alternate name of the version is free, or its stage is in the way. */
  predicate Crowded(v: View, x: VersionInfo, names: Names) {
    || Previous(names.stage(x)) in v
    || (Previous(names.preferred(x)) in v && Previous(names.alternate(x)) in v)
  }

  /** What a sync cannot go on from: something in the view is not what it may be. */
  ghost predicate Stuck(v: View, list: seq<VersionInfo>, names: Names) {
    || (Latest in v && (v[Latest].Other? || !v[Latest].marker.Marker?))
    || (exists p: Place :: p.Previous? && p in v && v[p].Dir? && v[p].marker.BadMarker?)
    || !AtMostOnce(v)
    || LatestStage in v
    || exists x :: x in list && Crowded(v, x, names)
  }

  lemma NoPathStuck(v: View, version: VersionInfo, names: Names, list: seq<VersionInfo>)
    requires version in list && AvailablePath(v, version, names).None?
    ensures Stuck(v, list, names)
  {
    var preferred := Previous(names.preferred(version));
    if v[preferred].Dir? && v[preferred].marker.BadMarker? {
      assert preferred.Previous?;
    } else {
      assert Crowded(v, version, names);
    }
  }

  /** What every part of the sync keeps. */
  ghost predicate Started(dir: ViewDir, v0: View, ids: set<string>, versions: Versions, latest: string)
    reads dir
  {
    && dir.Running(v0) && UnownedKept(dir.view, v0) && dir.ids == ids && dir.versions == versions
    && (Latest in dir.view ==> Owned(dir.view, Latest, latest))
    && latest in ids
  }

  /** And what holds once each version to keep is known to have one tree at most. */
  ghost predicate Syncing(dir: ViewDir, v0: View, ids: set<string>, versions: Versions, latest: string)
    reads dir
  {
    && Started(dir, v0, ids, versions, latest)
    && ReusedOnce(v0, ids, latest) && Carried(dir.view, v0, ids, latest, versions)
  }

  lemma CarriedStart(v0: View, ids: set<string>, latest: string, versions: Versions)
    requires ReusedOnce(v0, ids, latest)
    ensures Carried(v0, v0, ids, latest, versions)
  {
  }

  /** Moving `Latest` away hides no second tree of a version. */
  lemma MoveReusedOnce(v0: View, ids: set<string>, latest: string, to: Place, id: string)
    requires Owned(v0, Latest, id) && id != latest && to.Previous? && to !in v0
    requires ReusedOnce((v0 - {Latest})[to := v0[Latest]], ids, latest)
    ensures ReusedOnce(v0, ids, latest)
  {
    var w := (v0 - {Latest})[to := v0[Latest]];
    forall p, q, x | x in ids && Reused(v0, p, x, latest) && Reused(v0, q, x, latest) ensures p == q {
      assert Reused(w, if p == Latest then to else p, x, latest);
      assert Reused(w, if q == Latest then to else q, x, latest);
    }
  }

  /** Nor does removing it when its version is not listed. */
  lemma RemoveReusedOnce(v0: View, ids: set<string>, latest: string, id: string)
    requires Owned(v0, Latest, id) && id !in ids && ReusedOnce(v0 - {Latest}, ids, latest)
    ensures ReusedOnce(v0, ids, latest)
  {
    forall p, q, x | x in ids && Reused(v0, p, x, latest) && Reused(v0, q, x, latest) ensures p == q {
      assert Reused(v0 - {Latest}, p, x, latest) && Reused(v0 - {Latest}, q, x, latest);
    }
  }

  /** A scan that succeeds has found each version once. */
  lemma CatalogOnce(v: View, existing: map<string, Place>, ids: set<string>, latest: string)
    requires Catalog(v, existing) && (Latest in v ==> Owned(v, Latest, latest))
    ensures ReusedOnce(v, ids, latest)
  {
  }

  /** A tree keeps its version and content wherever it is moved. */
  lemma CarriedMove(v: View, v0: View, ids: set<string>, latest: string, versions: Versions, from: Place, to: Place,
                    id: string)
    requires Carried(v, v0, ids, latest, versions) && Owned(v, from, id) && id != latest && to.Previous? && to !in v
    ensures Carried((v - {from})[to := v[from]], v0, ids, latest, versions)
  {
    var w := (v - {from})[to := v[from]];
    forall q, x | x in ids && Reused(v0, q, x, latest) ensures exists p :: Reused(w, p, x, latest) {
      var p :| Reused(v, p, x, latest);
      assert Reused(w, if p == from then to else p, x, latest);
    }
  }

  /** A version without a tree to reuse is materialised from the store. */
  lemma CarriedPut(v: View, v0: View, ids: set<string>, latest: string, versions: Versions, to: Place, id: string)
    requires Carried(v, v0, ids, latest, versions) && to !in v && id in ids && (id == latest ==> to.Latest?)
    requires forall p :: !Reused(v, p, id, latest)
    ensures Carried(v[to := Dir(Marker(id), versions.body(id))], v0, ids, latest, versions)
  {
    var w := v[to := Dir(Marker(id), versions.body(id))];
    forall p, x | x in ids && Reused(w, p, x, latest) ensures w[p].body == BodyAfter(v0, x, latest, versions) {
      assert p != to ==> Reused(v, p, x, latest);
    }
    forall q, x | x in ids && Reused(v0, q, x, latest) ensures exists p :: Reused(w, p, x, latest) {
      var p :| Reused(v, p, x, latest);
      assert Reused(w, p, x, latest);
    }
  }

  /** Removing what is not to be reused loses nothing. */
  lemma CarriedRemove(v: View, v0: View, ids: set<string>, latest: string, versions: Versions, from: Place, id: string)
    requires Carried(v, v0, ids, latest, versions) && Owned(v, from, id) && (id !in ids || !Reused(v, from, id, latest))
    ensures Carried(v - {from}, v0, ids, latest, versions)
  {
    var w := v - {from};
    forall q, x | x in ids && Reused(v0, q, x, latest) ensures exists p :: Reused(w, p, x, latest) {
      var p :| Reused(v, p, x, latest);
      assert Reused(w, p, x, latest);
    }
  }

  /**
    The old `Latest` becomes a previous version, is removed, or stays.  Afterwards each version
    has one tree to reuse at most only if it had before, and then it is the same tree.
   */
  method ArchiveLatest(dir: ViewDir, previous: seq<VersionInfo>, latest: string, names: Names,
                       ghost ids: set<string>, versions: Versions, ghost v0: View) returns (ok: bool)
    requires dir.Running(v0) && dir.view == v0 && latest in ids && dir.ids == ids && dir.versions == versions
    requires forall id :: id in ids && id != latest ==> exists i :: 0 <= i < |previous| && previous[i].id == id
    modifies dir
    ensures dir.Running(v0)
    ensures ok ==> Started(dir, v0, ids, versions, latest)
    ensures ok && ReusedOnce(dir.view, ids, latest) ==> Syncing(dir, v0, ids, versions, latest)
    ensures !ok ==> dir.failed || Stuck(dir.view, previous, names)
  {
    dir.KeptNow(v0);
    if ReusedOnce(v0, ids, latest) {
      CarriedStart(v0, ids, latest, versions);
    }
    if Latest !in dir.view {
      return true;
    }
    if dir.view[Latest].Other? || !dir.view[Latest].marker.Marker? {
      return false;
    }
    var id := dir.view[Latest].marker.id;
    OwnedNotUnowned(dir.view, v0, Latest, id);
    if id == latest {
      return true;
    }
    if i :| 0 <= i < |previous| && previous[i].id == id {
      var target := AvailablePath(dir.view, previous[i], names);
      if target.None? {
        NoPathStuck(dir.view, previous[i], names, previous);
        return false;
      }
      if target.value in dir.view {
        assert Owned(dir.view, target.value, id) && Owned(dir.view, Latest, id);
        return false;
      }
      ArchivedCarried(v0, ids, latest, versions, target.value, id);
      ok := dir.Move(Latest, target.value, v0);
    } else {
      RemovedCarried(v0, ids, latest, versions, id);
      ok := dir.Remove(Latest, v0);
    }
    dir.KeptNow(v0);
  }

  lemma ArchivedCarried(v0: View, ids: set<string>, latest: string, versions: Versions, to: Place, id: string)
    requires Owned(v0, Latest, id) && id != latest && to.Previous? && to !in v0
    ensures var w := (v0 - {Latest})[to := v0[Latest]];
            ReusedOnce(w, ids, latest) ==> ReusedOnce(v0, ids, latest) && Carried(w, v0, ids, latest, versions)
  {
    if ReusedOnce((v0 - {Latest})[to := v0[Latest]], ids, latest) {
      MoveReusedOnce(v0, ids, latest, to, id);
      CarriedStart(v0, ids, latest, versions);
      CarriedMove(v0, v0, ids, latest, versions, Latest, to, id);
    }
  }

  lemma RemovedCarried(v0: View, ids: set<string>, latest: string, versions: Versions, id: string)
    requires Owned(v0, Latest, id) && id !in ids
    ensures ReusedOnce(v0 - {Latest}, ids, latest) ==>
              ReusedOnce(v0, ids, latest) && Carried(v0 - {Latest}, v0, ids, latest, versions)
  {
    if ReusedOnce(v0 - {Latest}, ids, latest) {
      RemoveReusedOnce(v0, ids, latest, id);
      CarriedStart(v0, ids, latest, versions);
      CarriedRemove(v0, v0, ids, latest, versions, Latest, id);
    }
  }

  lemma CatalogMove(v: View, existing: map<string, Place>, id: string, to: Place)
    requires Catalog(v, existing) && id in existing && to.Previous? && to !in v
    ensures var from := existing[id];
            from in v && Catalog((v - {from})[to := v[from]], existing[id := to])
  {
  }

  lemma CatalogPut(v: View, existing: map<string, Place>, id: string, to: Place, body: Tree)
    requires Catalog(v, existing) && id !in existing && to.Previous? && to !in v
    ensures Catalog(v[to := Dir(Marker(id), body)], existing[id := to])
  {
  }

  /**
    The tree of the version has its preferred name, unless something was there: then a tree that was
    there already keeps its name, and a new one gets the alternate name.
   */
  predicate WellNamed(v: View, version: VersionInfo, names: Names, existing: map<string, Place>,
                      now: map<string, Place>)
    requires version.id in now
  {
    var preferred := Previous(names.preferred(version));
    if preferred !in v then now[version.id] == preferred
    else if version.id in existing then now[version.id] == existing[version.id]
    else now[version.id] == Previous(names.alternate(version))
  }

  /** One previous version: give its tree the preferred name, or materialise it. */
  method SyncOne(dir: ViewDir, version: VersionInfo, existing: map<string, Place>, latest: string, names: Names,
                 ghost ids: set<string>, versions: Versions, ghost v0: View)
    returns (ok: bool, now: map<string, Place>)
    requires Syncing(dir, v0, ids, versions, latest) && Catalog(dir.view, existing)
    requires version.id != latest && version.id in ids && DistinctNames(names, [version])
    modifies dir
    ensures dir.Running(v0)
    ensures ok ==> Syncing(dir, v0, ids, versions, latest) && Catalog(dir.view, now)
    ensures ok ==> version.id in now && forall id :: id in existing ==> id in now
    ensures ok ==> WellNamed(old(dir.view), version, names, existing, now)
    ensures !ok ==> dir.failed || Stuck(dir.view, [version], names)
  {
    now := existing;
    var id := version.id;
    if id in existing {
      var from, preferred := existing[id], Previous(names.preferred(version));
      assert Owned(dir.view, from, id);
      if from == preferred || preferred in dir.view {
        return true, now;
      }
      OwnedNotUnowned(dir.view, v0, from, id);
      CatalogMove(dir.view, existing, id, preferred);
      CarriedMove(dir.view, v0, ids, latest, versions, from, preferred, id);
      ok := dir.Move(from, preferred, v0);
      if ok {
        now := existing[id := preferred];
      }
    } else {
      var target := AvailablePath(dir.view, version, names);
      if target.None? {
        NoPathStuck(dir.view, version, names, [version]);
        return false, now;
      }
      forall q ensures !Owned(dir.view, q, id) {
      }
      assert version in [version];
      ghost var before := dir.view;
      ok := Materialize(dir, id, Previous(names.stage(version)), target.value, versions, v0);
      if !ok && !dir.failed {
        assert target.value !in dir.view && Crowded(dir.view, version, names);
      }
      if ok {
        CatalogPut(before, existing, id, target.value, versions.body(id));
        CarriedPut(before, v0, ids, latest, versions, target.value, id);
        now := existing[id := target.value];
      }
    }
    dir.KeptNow(v0);
  }

  method SyncPrevious(dir: ViewDir, previous: seq<VersionInfo>, found: map<string, Place>, latest: string, names: Names,
                      ghost ids: set<string>, versions: Versions, ghost v0: View)
    returns (ok: bool, existing: map<string, Place>)
    requires Syncing(dir, v0, ids, versions, latest) && Catalog(dir.view, found) && DistinctNames(names, previous)
    requires forall x :: x in previous ==> x.id != latest && x.id in ids
    modifies dir
    ensures dir.Running(v0)
    ensures ok ==> Syncing(dir, v0, ids, versions, latest) && Catalog(dir.view, existing)
    ensures ok ==> forall x :: x in previous ==> x.id in existing
    ensures !ok ==> dir.failed || Stuck(dir.view, previous, names)
  {
    existing := found;
    for i := 0 to |previous|
      invariant Syncing(dir, v0, ids, versions, latest) && Catalog(dir.view, existing)
      invariant forall k :: 0 <= k < i ==> previous[k].id in existing
    {
      assert previous[i] in previous;
      ok, existing := SyncOne(dir, previous[i], existing, latest, names, ids, versions, v0);
      if !ok {
        StuckOnOne(dir.view, previous[i], previous, names);
        return;
      }
    }
    ok := true;
  }

  lemma StuckOnOne(v: View, x: VersionInfo, list: seq<VersionInfo>, names: Names)
    requires x in list
    ensures Stuck(v, [x], names) ==> Stuck(v, list, names)
  {
  }

  /** Managed trees of versions the index no longer lists are removed. */
  method RemoveStale(dir: ViewDir, existing: map<string, Place>, previousIds: set<string>, latest: string,
                     ghost ids: set<string>, versions: Versions, ghost v0: View) returns (ok: bool)
    requires Syncing(dir, v0, ids, versions, latest) && Catalog(dir.view, existing) && previousIds <= existing.Keys
    requires previousIds == ids - {latest}
    modifies dir
    ensures dir.Running(v0)
    ensures ok ==> Syncing(dir, v0, ids, versions, latest) && OnlyThese(dir.view, existing, previousIds)
    ensures !ok ==> dir.failed
  {
    var todo := existing.Keys - previousIds;
    ghost var left := existing;
    while todo != {}
      invariant Syncing(dir, v0, ids, versions, latest) && Catalog(dir.view, left)
      invariant Remaining(existing, left, todo, previousIds)
      decreases |todo|
    {
      var id :| id in todo;
      RemainingLess(existing, left, todo, previousIds, id);
      ok := RemoveOne(dir, left, id, existing[id], latest, ids, versions, v0);
      if !ok {
        return;
      }
      todo, left := todo - {id}, left - {id};
    }
    ok := true;
    CatalogOfPrevious(dir.view, existing, left, previousIds);
  }

  /** `left` is what remains of `existing`: the previous versions and those still to remove. */
  ghost predicate Remaining(existing: map<string, Place>, left: map<string, Place>, todo: set<string>,
                            previousIds: set<string>) {
    && (forall id :: id in todo ==> id in existing && id !in previousIds)
    && (forall id :: id in left <==> id in todo || id in previousIds)
    && (forall id :: id in left ==> id in existing && left[id] == existing[id])
  }

  lemma RemainingLess(existing: map<string, Place>, left: map<string, Place>, todo: set<string>,
                      previousIds: set<string>, id: string)
    requires Remaining(existing, left, todo, previousIds) && id in todo
    ensures id in left && id in existing && left[id] == existing[id]
    ensures Remaining(existing, left - {id}, todo - {id}, previousIds)
  {
  }

  lemma CatalogOfPrevious(v: View, existing: map<string, Place>, left: map<string, Place>, previousIds: set<string>)
    requires Catalog(v, left) && Remaining(existing, left, {}, previousIds)
    ensures OnlyThese(v, existing, previousIds)
  {
  }

  method RemoveOne(dir: ViewDir, ghost existing: map<string, Place>, id: string, p: Place, latest: string,
                   ghost ids: set<string>, versions: Versions, ghost v0: View) returns (ok: bool)
    requires Syncing(dir, v0, ids, versions, latest) && Catalog(dir.view, existing) && id in existing &&
               existing[id] == p
    requires id !in ids || id == latest
    modifies dir
    ensures dir.Running(v0)
    ensures ok ==> Syncing(dir, v0, ids, versions, latest) && Catalog(dir.view, existing - {id})
    ensures !ok ==> dir.failed
  {
    assert Owned(dir.view, p, id);
    OwnedNotUnowned(dir.view, v0, p, id);
    CatalogRemove(dir.view, existing, id);
    CarriedRemove(dir.view, v0, ids, latest, versions, p, id);
    ok := dir.Remove(p, v0);
    dir.KeptNow(v0);
  }

  lemma CatalogRemove(v: View, existing: map<string, Place>, id: string)
    requires Catalog(v, existing) && id in existing
    ensures Catalog(v - {existing[id]}, existing - {id})
    ensures forall p, x :: Owned(v - {existing[id]}, p, x) ==> Owned(v, p, x)
  {
  }

  /** `Latest` and one tree per other version, nothing else managed. */
  ghost predicate Arranged(v: View, latest: string, previousIds: set<string>) {
    && AtMostOnce(v)
    && Owned(v, Latest, latest)
    && (forall id :: id in previousIds ==> exists p: Place :: p.Previous? && Owned(v, p, id))
    && (forall p: Place, id :: p.Previous? && Owned(v, p, id) ==> id in previousIds)
  }

  /** The view a source should have: every tree holds its version. */
  ghost predicate Shows(v: View, latest: string, previousIds: set<string>, versions: Versions) {
    Arranged(v, latest, previousIds) && forall p, id :: Owned(v, p, id) ==> v[p].body == versions.body(id)
  }

  /** The view a sync leaves: trees that were there hold what they held, the others their version. */
  ghost predicate Synced(v: View, v0: View, latest: string, previousIds: set<string>, versions: Versions) {
    && Arranged(v, latest, previousIds)
    && forall p, id :: Owned(v, p, id) ==> v[p].body == BodyAfter(v0, id, latest, versions)
  }

  /** A sync leaves the right view exactly when the trees it went on using were right before. */
  lemma SyncedShowsIff(v: View, v0: View, latest: string, previousIds: set<string>, versions: Versions)
    requires ReusedOnce(v0, previousIds + {latest}, latest) && latest !in previousIds
    requires Synced(v, v0, latest, previousIds, versions)
    ensures Shows(v, latest, previousIds, versions) <==> RightStart(v0, previousIds + {latest}, latest, versions)
  {
    if Shows(v, latest, previousIds, versions) {
      forall q, id | id in previousIds + {latest} && Reused(v0, q, id, latest)
        ensures v0[q].body == versions.body(id)
      {
        assert exists p :: Owned(v, p, id);
      }
    }
    if RightStart(v0, previousIds + {latest}, latest, versions) {
      forall p, id | Owned(v, p, id) ensures v[p].body == versions.body(id) {
        assert id in previousIds + {latest};
      }
    }
  }

  /**
    For instance: the move of a built stage of version "a" fails, and so does its removal, which
    leaves the marked stage without its files; the next sync takes it for the version.
   */
  lemma TruncatedStageShown()
    ensures var versions := Versions(id => if id == "a" then map[["file"] := LinkNode] else map[], _ => NoMarker);
            var staged: View := map[Previous("stage") := Dir(Marker("a"), versions.body("a"))];
            var left: View := map[Previous("stage") := Dir(Marker("a"), map[])];
            var shown: View := map[Latest := Dir(Marker("b"), map[]), Previous("a") := Dir(Marker("a"), map[])];
            && Leftover(left, staged, Previous("stage")) && AtMostOnce(left)
            && Synced(shown, left, "b", {"a"}, versions) && !Shows(shown, "b", {"a"}, versions)
  {
    var versions := Versions(id => if id == "a" then map[["file"] := LinkNode] else map[], _ => NoMarker);
    var left: View := map[Previous("stage") := Dir(Marker("a"), map[])];
    var shown: View := map[Latest := Dir(Marker("b"), map[]), Previous("a") := Dir(Marker("a"), map[])];
    assert Reused(left, Previous("stage"), "a", "b");
    assert Owned(shown, Previous("a"), "a") && ["file"] in versions.body("a");
  }

  /** Any two views of the same versions hold the same trees under the same identifiers. */
  lemma ViewIsDetermined(v: View, w: View, latest: string, previousIds: set<string>, versions: Versions, id: string)
    returns (p: Place, q: Place)
    requires Shows(v, latest, previousIds, versions) && Shows(w, latest, previousIds, versions) && id in previousIds
    ensures v[Latest] == w[Latest]
    ensures p.Previous? && q.Previous? && Owned(v, p, id) && Owned(w, q, id) && v[p] == w[q]
    ensures forall x: Place :: x.Previous? && Owned(v, x, id) ==> x == p
  {
    p :| p.Previous? && Owned(v, p, id);
    q :| q.Previous? && Owned(w, q, id);
  }

  /**
    `sync_source_readable_view` on an existing view.  No step touches anything unowned.  Each
    version has at most one managed tree in every state exactly when it had at the start and no
    staging showed a marker of a version that was managed then.  Success leaves `Latest` and one
    tree per other version; the view is the one a build from scratch would leave exactly when the
    trees that were reused held their versions before.  It fails only on an I/O error or where the
    view holds something a sync does not touch.
   */
  method SyncView(dir: ViewDir, index: VersionIndex, names: Names, versions: Versions) returns (ok: bool)
    requires dir.trace == [dir.view] && dir.staged == [] && dir.ids == index.Ids() && dir.versions == versions
    requires DistinctNames(names, index.versions)
    modifies dir
    ensures dir.Running(old(dir.view))
    ensures AtMostOnce(old(dir.view)) && NoForeignMarkers(index.Ids(), versions) ==>
              AlwaysOnce(dir.trace)
    ensures ok && index.versions != [] ==>
              var latest := index.versions[|index.versions| - 1].id;
              && ReusedOnce(old(dir.view), index.Ids(), latest)
              && Synced(dir.view, old(dir.view), latest, index.Ids() - {latest}, versions)
              && (Shows(dir.view, latest, index.Ids() - {latest}, versions) <==>
                    RightStart(old(dir.view), index.Ids(), latest, versions))
    ensures !ok ==> dir.failed || Stuck(dir.view, index.versions, names)
  {
    if index.versions == [] {
      return true;
    }
    ghost var v0 := dir.view;
    var latest := index.versions[|index.versions| - 1].id;
    var previous := OtherThan(index.versions, latest);
    PreviousIds(index, latest);
    OthersDistinct(names, index.versions, latest);
    ok := SyncVersions(dir, previous, latest, IdSet(previous), names, index.Ids(), versions, v0);
    StuckOnMore(dir.view, previous, index.versions, names);
    if AtMostOnce(v0) && NoForeignMarkers(index.Ids(), versions) {
      NoForeignClean(dir, v0);
    }
  }

  lemma StuckOnMore(v: View, some: seq<VersionInfo>, all: seq<VersionInfo>, names: Names)
    requires forall x :: x in some ==> x in all
    ensures Stuck(v, some, names) ==> Stuck(v, all, names)
  {
  }

  lemma NoForeignClean(dir: ViewDir, v0: View)
    requires dir.Running(v0) && AtMostOnce(v0) && NoForeignMarkers(dir.ids, dir.versions)
    ensures AlwaysOnce(dir.trace)
  {
    assert dir.Clean(v0);
  }

  /** The four parts of a sync, one after the other. */
  method SyncVersions(dir: ViewDir, previous: seq<VersionInfo>, latest: string, previousIds: set<string>, names: Names,
                      ghost ids: set<string>, versions: Versions, ghost v0: View) returns (ok: bool)
    requires dir.Running(v0) && dir.view == v0 && dir.ids == ids && dir.versions == versions
    requires Listing(previous, latest, previousIds, ids) && DistinctNames(names, previous)
    modifies dir
    ensures dir.Running(v0)
    ensures ok ==>
              && ReusedOnce(v0, ids, latest)
              && Synced(dir.view, v0, latest, previousIds, versions)
              && (Shows(dir.view, latest, previousIds, versions) <==> RightStart(v0, ids, latest, versions))
    ensures !ok ==> dir.failed || Stuck(dir.view, previous, names)
  {
    var found, existing;
    ok, found := FindTrees(dir, previous, latest, names, ids, versions, v0);
    if !ok {
      return;
    }
    ok, existing := SyncPrevious(dir, previous, found, latest, names, ids, versions, v0);
    if !ok {
      return;
    }
    ok := Finish(dir, existing, previous, previousIds, latest, ids, versions, v0);
  }

  /** The old `Latest` is put away, and the trees that are there are looked up. */
  method FindTrees(dir: ViewDir, previous: seq<VersionInfo>, latest: string, names: Names,
                   ghost ids: set<string>, versions: Versions, ghost v0: View)
    returns (ok: bool, found: map<string, Place>)
    requires dir.Running(v0) && dir.view == v0 && latest in ids && dir.ids == ids && dir.versions == versions
    requires forall id :: id in ids && id != latest ==> exists i :: 0 <= i < |previous| && previous[i].id == id
    modifies dir
    ensures dir.Running(v0)
    ensures ok ==> Syncing(dir, v0, ids, versions, latest) && Catalog(dir.view, found)
    ensures !ok ==> dir.failed || Stuck(dir.view, previous, names)
  {
    found := map[];
    ok := ArchiveLatest(dir, previous, latest, names, ids, versions, v0);
    if !ok {
      return;
    }
    var scanned := ScanPrevious(dir.view);
    if scanned.None? {
      return false, found;
    }
    found := scanned.value;
    CatalogOnce(dir.view, found, ids, latest);
  }

  /** Stale trees go, and `Latest` is made if it is not there. */
  method Finish(dir: ViewDir, existing: map<string, Place>, ghost previous: seq<VersionInfo>, previousIds: set<string>,
                latest: string, ghost ids: set<string>, versions: Versions, ghost v0: View) returns (ok: bool)
    requires Syncing(dir, v0, ids, versions, latest) && Catalog(dir.view, existing)
    requires Listing(previous, latest, previousIds, ids) && forall x :: x in previous ==> x.id in existing
    modifies dir
    ensures dir.Running(v0)
    ensures ok ==>
              && ReusedOnce(v0, ids, latest)
              && Synced(dir.view, v0, latest, previousIds, versions)
              && (Shows(dir.view, latest, previousIds, versions) <==> RightStart(v0, ids, latest, versions))
    ensures !ok ==> dir.failed || LatestStage in dir.view
  {
    ok := RemoveStale(dir, existing, previousIds, latest, ids, versions, v0);
    if !ok {
      return;
    }
    ok := FinishLatest(dir, latest, existing, previousIds, ids, versions, v0);
    if ok {
      assert previousIds + {latest} == ids;
      SyncedShowsIff(dir.view, v0, latest, previousIds, versions);
    }
  }

  function IdSet(list: seq<VersionInfo>): set<string> {
    set i | 0 <= i < |list| :: list[i].id
  }

  /** `previous` lists the versions of `ids` other than the latest. */
  predicate Listing(previous: seq<VersionInfo>, latest: string, previousIds: set<string>, ids: set<string>) {
    && latest in ids && previousIds == ids - {latest}
    && (forall x :: x in previous ==> x.id != latest && x.id in ids)
    && (forall id :: id in ids && id != latest ==> exists i :: 0 <= i < |previous| && previous[i].id == id)
  }

  lemma OtherListed(list: seq<VersionInfo>, latest: string, id: string)
    requires id in IdSet(list) && id != latest
    ensures exists i :: 0 <= i < |OtherThan(list, latest)| && OtherThan(list, latest)[i].id == id
  {
    var k :| 0 <= k < |list| && list[k].id == id;
    assert list[k] in OtherThan(list, latest);
  }

  lemma PreviousIds(index: VersionIndex, latest: string)
    requires latest in index.Ids()
    ensures var previous := OtherThan(index.versions, latest);
            Listing(previous, latest, IdSet(previous), index.Ids())
  {
    var list, previous := index.versions, OtherThan(index.versions, latest);
    forall id | id in index.Ids() && id != latest
      ensures id in IdSet(previous) && exists i :: 0 <= i < |previous| && previous[i].id == id
    {
      OtherListed(list, latest, id);
    }
    forall x | x in previous ensures x.id in index.Ids() {
      assert x in list;
    }
    forall id | id in IdSet(previous) ensures id in index.Ids() && id != latest {
      var i :| 0 <= i < |previous| && previous[i].id == id;
      assert previous[i] in previous;
    }
  }

  lemma OthersDistinct(names: Names, list: seq<VersionInfo>, latest: string)
    requires DistinctNames(names, list)
    ensures DistinctNames(names, OtherThan(list, latest))
  {
  }

  method FinishLatest(dir: ViewDir, latest: string, ghost existing: map<string, Place>, ghost previousIds: set<string>,
                      ghost ids: set<string>, versions: Versions, ghost v0: View) returns (ok: bool)
    requires Syncing(dir, v0, ids, versions, latest) && previousIds == ids - {latest}
    requires OnlyThese(dir.view, existing, previousIds)
    modifies dir
    ensures dir.Running(v0)
    ensures ok ==> Synced(dir.view, v0, latest, previousIds, versions) && ReusedOnce(v0, ids, latest)
    ensures !ok ==> dir.failed || LatestStage in dir.view
  {
    ok := true;
    if Latest !in dir.view {
      ghost var before := dir.view;
      forall q ensures !Owned(before, q, latest) {
      }
      ok := Materialize(dir, latest, LatestStage, Latest, versions, v0);
      if ok {
        CarriedPut(before, v0, ids, latest, versions, Latest, latest);
        LatestPut(before, existing, previousIds, Dir(Marker(latest), versions.body(latest)));
      }
    }
    if ok {
      AllArranged(dir.view, latest, existing, previousIds);
      SyncedFromCarried(dir.view, v0, ids, latest, previousIds, versions);
    }
  }

  /** The trees under `Previous Versions` are those of `existing`, one per previous version. */
  ghost predicate OnlyThese(v: View, existing: map<string, Place>, previousIds: set<string>) {
    && (forall id :: id in previousIds ==> id in existing && existing[id].Previous? && Owned(v, existing[id], id))
    && (forall p: Place, id :: p.Previous? && Owned(v, p, id) ==> id in previousIds && existing[id] == p)
  }

  lemma LatestPut(v: View, existing: map<string, Place>, previousIds: set<string>, e: Entry)
    requires OnlyThese(v, existing, previousIds)
    ensures OnlyThese(v[Latest := e], existing, previousIds)
  {
    forall p: Place, id | p.Previous? && Owned(v[Latest := e], p, id) ensures Owned(v, p, id) {
    }
  }

  lemma AllArranged(v: View, latest: string, existing: map<string, Place>, previousIds: set<string>)
    requires OnlyThese(v, existing, previousIds) && Owned(v, Latest, latest) && latest !in previousIds
    ensures Arranged(v, latest, previousIds)
  {
    forall p, q, id | Owned(v, p, id) && Owned(v, q, id) ensures p == q {
      assert p.Latest? || p.Previous?;
      assert q.Latest? || q.Previous?;
    }
  }

  lemma SyncedFromCarried(v: View, v0: View, ids: set<string>, latest: string, previousIds: set<string>,
                          versions: Versions)
    requires Arranged(v, latest, previousIds) && Carried(v, v0, ids, latest, versions)
    requires latest in ids && previousIds == ids - {latest}
    ensures Synced(v, v0, latest, previousIds, versions)
  {
    forall p, id | Owned(v, p, id) ensures v[p].body == BodyAfter(v0, id, latest, versions) {
      assert p.Latest? || p.Previous?;
      assert Reused(v, p, id, latest);
    }
  }
}
