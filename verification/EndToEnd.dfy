/** Replication and restore together: what was published on a replica restores there as at the source. */
module EndToEnd {
  import opened Common
  import opened Model
  import opened RelPaths
  import opened Trees
  import Blobs
  import opened Replication
  import opened Restore
  import opened RestoreShape

  /** Every file entry records a hash. */
  predicate AllHashed(m: Manifest) {
    forall i :: 0 <= i < |m.entries| ==> (m.entries[i].entry.kind.FileEntry? ==> m.entries[i].entry.sha256.Some?)
  }

  /** In a complete version preflight succeeds exactly when every file entry records a hash. */
  lemma CompletePreflight(env: Env, st: Store, s: string, version: string, m: Manifest)
    requires Complete(env, st, s, version) && LoadManifest(env, st, s, version) == Some(m)
    ensures Preflight(st, m).Some? <==> AllHashed(m)
    ensures forall h :: h in BlobsOf(m) ==> FileContent(env, st, h).Some?
  {
  }

  lemma {:induction false} PlannedNamesBlob(entries: seq<KeyedEntry>, i: nat) returns (k: nat)
    requires i < |PlannedOf(entries)|
    ensures k < |entries| && NamesBlob(entries[k].entry) && entries[k].entry.sha256.value == PlannedOf(entries)[i].hash
  {
    var n := |entries| - 1;
    if i < |PlannedOf(entries[..n])| {
      k := PlannedNamesBlob(entries[..n], i);
    } else {
      k := n;
    }
  }

  lemma {:induction false} EachAgrees<X>(f: (Tree, X) -> Option<Tree>, g: (Tree, X) -> Option<Tree>, t: Tree,
                                         xs: seq<X>)
    requires forall made: Tree, i :: 0 <= i < |xs| ==> f(made, xs[i]) == g(made, xs[i])
    ensures Each(f, t, xs) == Each(g, t, xs)
  {
    if xs != [] {
      var n := |xs| - 1;
      forall made: Tree, i | 0 <= i < n ensures f(made, xs[..n][i]) == g(made, xs[..n][i]) {
        assert xs[..n][i] == xs[i];
      }
      EachAgrees(f, g, t, xs[..n]);
    }
  }

  /** A restored tree depends on the store only through the contents under the hashes its manifest names. */
  lemma BuildTreeAgrees(a: Contents, b: Contents, m: Manifest)
    requires forall h :: h in BlobsOf(m) ==> a(h) == b(h)
    ensures BuildTree(a, m) == BuildTree(b, m)
  {
    var files := PlannedOf(m.entries);
    forall made: Tree, i | 0 <= i < |files|
      ensures FileStep(a)(made, files[i]) == FileStep(b)(made, files[i])
    {
      var k := PlannedNamesBlob(m.entries, i);
      assert files[i].hash in BlobsOf(m);
    }
    if AddDirs(EMPTY_DIR, m.entries).Some? {
      EachAgrees(FileStep(a), FileStep(b), AddDirs(EMPTY_DIR, m.entries).value, files);
    }
  }

  /** Good blobs under one hash hold one plaintext. */
  lemma SameContent(env: Env, src: Store, dst: Store, h: string)
    requires env.prims.CollisionFree() && GoodBlob(env, src, h) && GoodBlob(env, dst, h)
    ensures FileContent(env, src, h) == FileContent(env, dst, h)
  {
  }

  /** A mirrored version loads, preflights and restores on the replica exactly as on the source. */
  lemma MirroredRestoresAlike(env: Env, src: Store, dst: Store, s: string, version: string)
    requires env.prims.CollisionFree() && Mirrored(env, src, dst, s, version)
    ensures LoadManifest(env, src, s, version) == LoadManifest(env, dst, s, version)
    ensures LoadManifest(env, src, s, version).Some? ==>
              var m := LoadManifest(env, src, s, version).value;
              Preflight(src, m) == Preflight(dst, m) && RestoreTree(env, src, m) == RestoreTree(env, dst, m)
  {
    if LoadManifest(env, src, s, version).Some? {
      var m := LoadManifest(env, src, s, version).value;
      CompletePreflight(env, src, s, version, m);
      CompletePreflight(env, dst, s, version, m);
      var a, b := StoreContents(env, src), StoreContents(env, dst);
      forall h | h in BlobsOf(m) ensures a(h) == b(h) {
        SameContent(env, src, dst, h);
      }
      BuildTreeAgrees(a, b, m);
    }
  }

  /** The request loads, passes preflight and restores from `b` exactly as from `a`. */
  ghost predicate RestoresAlike(env: Env, a: Store, b: Store, s: string, v: string) {
    && LoadManifest(env, a, s, v) == LoadManifest(env, b, s, v)
    && (LoadManifest(env, a, s, v).Some? ==>
          Preflight(a, LoadManifest(env, a, s, v).value) == Preflight(b, LoadManifest(env, a, s, v).value))
    && Requested(env, a, s, v) == Requested(env, b, s, v)
  }

  /**
    End to end: once replication has published a source, every version its index lists restores
    from the replica to the tree it restores to from the source.
   */
  lemma PublishedRestoresAlike(env: Env, src: Store, dst: Store, s: string)
    requires env.prims.CollisionFree() && Published(env, src, dst, s)
    ensures IndexAt(env, dst, s) == IndexAt(env, src, s)
    ensures forall v :: v in IndexAt(env, src, s).value.Ids() ==> RestoresAlike(env, src, dst, s, v)
  {
    forall v | v in IndexAt(env, src, s).value.Ids() ensures RestoresAlike(env, src, dst, s, v) {
      MirroredRestoresAlike(env, src, dst, s, v);
    }
  }

  /** A complete version restores exactly when every file entry records a hash and the files can be placed. */
  lemma CompleteRestoresIff(env: Env, st: Store, s: string, version: string, m: Manifest)
    requires Complete(env, st, s, version) && LoadManifest(env, st, s, version) == Some(m)
    ensures Requested(env, st, s, version).Some? <==> AllHashed(m) && Placeable(m)
  {
    CompletePreflight(env, st, s, version, m);
    var content, files := StoreContents(env, st), PlannedOf(m.entries);
    forall i | 0 <= i < |files| ensures content(files[i].hash).Some? {
      var k := PlannedNamesBlob(m.entries, i);
      assert files[i].hash in BlobsOf(m);
    }
    BuildTreeSomeIff(content, m);
  }

  /** So once a source is published, exactly the fully hashed, placeable versions restore from the replica. */
  lemma PublishedRestoresIff(env: Env, src: Store, dst: Store, s: string, version: string, m: Manifest)
    requires env.prims.CollisionFree() && Published(env, src, dst, s) && version in IndexAt(env, src, s).value.Ids()
    requires LoadManifest(env, src, s, version) == Some(m)
    ensures RestoresAlike(env, src, dst, s, version)
    ensures Requested(env, dst, s, version).Some? <==> AllHashed(m) && Placeable(m)
  {
    PublishedRestoresAlike(env, src, dst, s);
    assert Mirrored(env, src, dst, s, version);
    CompleteRestoresIff(env, dst, s, version, m);
  }

  function UnhashedManifest(): Manifest {
    Manifest("src", [KeyedEntry("a/b", ManifestEntry(FileEntry, "a/b", 0, 0, 0, None))])
  }

  function UnhashedEnv(m: Manifest): Env {
    Env(Blobs.Primitives((pt, level) => None, (ct, cap) => None,
                         (key, nonce, position, last, pt) => None, (key, nonce, position, last, ct) => None,
                         plain => ""),
        None, raw => Some(VersionIndex("src", [VersionInfo("v1", 1)], None, None)), raw => Some(m))
  }

  function UnhashedStore(): Store {
    Store(map["s" := SourceDir(Some(Regular([])), map["v1.json" := Regular([])], None)], map[])
  }

  lemma UnhashedPublished()
    ensures var (m, st) := (UnhashedManifest(), UnhashedStore());
            var env := UnhashedEnv(m);
            && Published(env, st, st, "s") && Listed(env, st, "s", "v1")
            && LoadManifest(env, st, "s", "v1") == Some(m)
  {
    var m, st := UnhashedManifest(), UnhashedStore();
    KeysCollide();
    assert ManifestName("v1") == "v1.json";
    assert Order(UnhashedEnv(m), st, "s") == ["v1"];
    assert BlobsOf(m) == {};
  }

  lemma UnhashedPlaceable()
    ensures PlannedOf(UnhashedManifest().entries) == [] && Placeable(UnhashedManifest())
  {
    var entries := UnhashedManifest().entries;
    assert entries[..0] == [];
  }

  /**
    For instance: a file entry without a hash.  Its version loads, is complete and published, and
    its tree could be built, but preflight refuses it.
   */
  lemma UnhashedNotRestored() returns (env: Env, st: Store, m: Manifest)
    ensures Published(env, st, st, "s") && Listed(env, st, "s", "v1")
    ensures LoadManifest(env, st, "s", "v1") == Some(m) && RestoreTree(env, st, m).Some?
    ensures Preflight(st, m).None? && Requested(env, st, "s", "v1").None?
  {
    m := UnhashedManifest();
    env, st := UnhashedEnv(m), UnhashedStore();
    UnhashedPublished();
    UnhashedPlaceable();
    BuildTreeSomeIff(StoreContents(env, st), m);
    assert !EntryAvailable(st, m.entries[0].entry);
  }

  /** A version id names the same manifest wherever it is present. */
  ghost predicate SameManifests(src: Store, dst: Store) {
    forall s, v :: ManifestAt(src, s, v).Some? && ManifestAt(dst, s, v).Some? ==>
      ManifestAt(src, s, v) == ManifestAt(dst, s, v)
  }

  /**
    At whatever operation a run stops, each listed version that was listed and complete before
    restores to the tree it restored to before, and each source whose index changed restores like
    the original.
   */
  lemma CrashedReplicaRestores(env: Env, src: Store, origin: Store, log: seq<Event>, k: nat, s: string, v: string)
    requires env.prims.CollisionFree() && SameManifests(src, origin) && LegalLog(env, src, origin, log) && k <= |log|
    requires Listed(env, Run(origin, log[..k]), s, v)
    ensures var st := Run(origin, log[..k]);
            && (Listed(env, origin, s, v) && Complete(env, origin, s, v) ==> RestoresAlike(env, origin, st, s, v))
            && (st.Source(s).index != origin.Source(s).index ==> RestoresAlike(env, src, st, s, v))
  {
    SameManifestsReady(env, src, origin);
    CrashSafety(env, src, origin, log, k);
    var st := Run(origin, log[..k]);
    if Listed(env, origin, s, v) && Complete(env, origin, s, v) {
      assert Complete(env, st, s, v);
      assert ManifestAt(st, s, v) == ManifestAt(origin, s, v);
      MirroredRestoresAlike(env, origin, st, s, v);
    }
    if st.Source(s).index != origin.Source(s).index {
      PublishedRestoresAlike(env, src, st, s);
    }
  }
}
