/**
  Replication of one store to another.  The replica changes only by atomic file operations, which
  are kept in a log; a crash leaves the replica at some prefix of that log.
 */
module Replication {
  import opened Common
  import opened Model
  import Blobs
  import opened BlobStreams

  /** What sits at a path that should hold a regular file. */
  datatype Slot = Regular(content: bytes) | NotRegular

  datatype SourceDir = SourceDir(index: Option<Slot>, manifests: map<string, Slot>, report: Option<Slot>)

  /** Source id to its files, and hash to blob file.  Manifests are keyed by file name. */
  datatype Store = Store(sources: map<string, SourceDir>, blobs: map<string, Slot>)
  {
    function Source(s: string): SourceDir {
      if s in sources then sources[s] else SourceDir(None, map[], None)
    }
  }

  /** Parsers and the codec. */
  datatype Env = Env(
    prims: Blobs.Primitives,
    cipher: Option<bytes>,
    parseIndex: bytes -> Option<VersionIndex>,
    parseManifest: bytes -> Option<Manifest>)
  {
    function PlainHash(blob: bytes): Option<string> {
      Blobs.PlainHash(prims, cipher, blob)
    }
  }

  const JSON := ".json"

  function ManifestName(version: string): string {
    version + JSON
  }

  // ----- What a store holds -----

  predicate GoodBlob(env: Env, st: Store, hash: string) {
    hash in st.blobs && st.blobs[hash].Regular? && env.PlainHash(st.blobs[hash].content) == Some(hash)
  }

  function ManifestAt(st: Store, s: string, version: string): Option<bytes> {
    var files := st.Source(s).manifests;
    var name := ManifestName(version);
    if name in files && files[name].Regular? then Some(files[name].content) else None
  }

  /** Every blob the manifest bytes refer to is present and decodes to its hash. */
  predicate Backed(env: Env, st: Store, raw: bytes) {
    && env.parseManifest(raw).Some?
    && forall h :: h in BlobsOf(env.parseManifest(raw).value) ==> ValidHash(h) && GoodBlob(env, st, h)
  }

  /** The version can be read back from this store. */
  predicate Complete(env: Env, st: Store, s: string, version: string) {
    ManifestAt(st, s, version).Some? && Backed(env, st, ManifestAt(st, s, version).value)
  }

  function IndexAt(env: Env, st: Store, s: string): Option<VersionIndex> {
    match st.Source(s).index
    case Some(Regular(raw)) => env.parseIndex(raw)
    case _ => None
  }

  predicate Listed(env: Env, st: Store, s: string, version: string) {
    IndexAt(env, st, s).Some? && version in IndexAt(env, st, s).value.Ids()
  }

  /** The versions an index lists, in its order. */
  function Order(env: Env, st: Store, s: string): (r: seq<string>)
    ensures forall v :: Listed(env, st, s, v) <==> v in r
  {
    match IndexAt(env, st, s)
    case None => []
    case Some(index) =>
      var r := seq(|index.versions|, i requires 0 <= i < |index.versions| => index.versions[i].id);
      assert forall i :: 0 <= i < |r| ==> r[i] == index.versions[i].id;
      assert forall i :: 0 <= i < |index.versions| ==> index.versions[i].id in r;
      r
  }

  /** The blobs the manifest of a version refers to. */
  function NamedBlobs(env: Env, st: Store, s: string, version: string): set<string> {
    match ManifestAt(st, s, version)
    case None => {}
    case Some(raw) => if env.parseManifest(raw).Some? then BlobsOf(env.parseManifest(raw).value) else {}
  }

  // ----- Atomic operations -----

  datatype Event =
    | MakeSource(source: string)
    | PutManifest(source: string, name: string, raw: bytes)
    | PutBlob(hash: string, raw: bytes)
    | PutReport(source: string, raw: bytes)
    | PutIndex(source: string, raw: bytes)
    | DropManifest(source: string, name: string)

  function Apply(st: Store, e: Event): Store {
    match e
    case MakeSource(s) => st.(sources := st.sources[s := st.Source(s)])
    case PutManifest(s, name, raw) =>
      var dir := st.Source(s);
      st.(sources := st.sources[s := dir.(manifests := dir.manifests[name := Regular(raw)])])
    case PutBlob(hash, raw) => st.(blobs := st.blobs[hash := Regular(raw)])
    case PutReport(s, raw) => st.(sources := st.sources[s := st.Source(s).(report := Some(Regular(raw)))])
    case PutIndex(s, raw) => st.(sources := st.sources[s := st.Source(s).(index := Some(Regular(raw)))])
    case DropManifest(s, name) =>
      var dir := st.Source(s);
      st.(sources := st.sources[s := dir.(manifests := dir.manifests - {name})])
  }

  function Run(st: Store, log: seq<Event>): Store {
    if log == [] then st else Apply(Run(st, log[..|log| - 1]), log[|log| - 1])
  }

  /** `str::trim_end_matches(".json")`: strips the suffix as often as it occurs. */
  function TrimJson(name: string): string
    decreases |name|
  {
    if |name| >= 5 && name[|name| - 5..] == JSON then TrimJson(name[..|name| - 5]) else name
  }

  /** The version's manifest and all its blobs, equal on both sides and readable on both. */
  predicate Mirrored(env: Env, src: Store, dst: Store, s: string, version: string) {
    && Complete(env, src, s, version)
    && Complete(env, dst, s, version)
    && ManifestAt(src, s, version) == ManifestAt(dst, s, version)
  }

  /**
    A source is entered only if its index is valid, everything it lists is complete at the source,
    and the replica's index, if there is one, is valid too.
   */
  predicate Enters(env: Env, src: Store, dst: Store, s: string) {
    && IndexAt(env, src, s).Some? && ValidIndex(IndexAt(env, src, s).value)
    && (dst.Source(s).index.Some? ==> IndexAt(env, dst, s).Some? && ValidIndex(IndexAt(env, dst, s).value))
    && forall v :: v in Order(env, src, s) ==> Complete(env, src, s, v)
  }

  /** The source was entered, and its first `i` versions are mirrored. */
  predicate Reached(env: Env, src: Store, dst: Store, s: string, i: nat) {
    && Enters(env, src, dst, s) && i <= |Order(env, src, s)|
    && forall j :: 0 <= j < i ==> Mirrored(env, src, dst, s, Order(env, src, s)[j])
  }

  /** The turn of the version at position `i` of the source's index. */
  predicate Turn(env: Env, src: Store, dst: Store, s: string, i: nat) {
    Reached(env, src, dst, s, i) && i < |Order(env, src, s)|
  }

  /** Something other than a regular file is never replaced or removed. */
  predicate Replaceable(slots: map<string, Slot>, name: string) {
    name in slots ==> slots[name].Regular?
  }

  /**
    The operations replication from `src` may perform on the replica in state `dst`.  Versions of a
    source come in the order of its index; sources come in any order, as the directory walk has none.
   */
  ghost predicate Legal(env: Env, src: Store, dst: Store, e: Event) {
    match e
    case MakeSource(_) => true
    case PutManifest(s, name, raw) =>
      && Replaceable(dst.Source(s).manifests, name)
      && exists i: nat :: Turn(env, src, dst, s, i) && Carries(src, e, s, Order(env, src, s)[i])
    case PutBlob(hash, raw) =>
      GoodBlob(env, src, hash) && src.blobs[hash] == Regular(raw) && Replaceable(dst.blobs, hash)
    case PutReport(s, raw) => src.Source(s).report == Some(Regular(raw))
    case PutIndex(s, raw) =>
      && src.Source(s).index == Some(Regular(raw))
      && IndexAt(env, src, s).Some?
      && forall v :: v in IndexAt(env, src, s).value.Ids() ==> Mirrored(env, src, dst, s, v)
    case DropManifest(s, name) =>
      && IndexAt(env, dst, s).Some? && ValidIndex(IndexAt(env, dst, s).value)
      && dst.Source(s).index == src.Source(s).index
      && TrimJson(name) !in IndexAt(env, dst, s).value.Ids()
      && Replaceable(dst.Source(s).manifests, name)
  }

  /** The operation writes the source's manifest of version `v`. */
  predicate Carries(src: Store, e: Event, s: string, v: string) {
    e.PutManifest? && e.source == s && e.name == ManifestName(v) && ManifestAt(src, s, v) == Some(e.raw)
  }

  ghost predicate LegalLog(env: Env, src: Store, origin: Store, log: seq<Event>) {
    forall k :: 0 <= k < |log| ==> Legal(env, src, Run(origin, log[..k]), log[k])
  }

  // ----- Crash safety -----

  /** What one operation keeps. */
  ghost predicate SafeStep(env: Env, a: Store, b: Store) {
    && (forall h :: GoodBlob(env, a, h) ==> GoodBlob(env, b, h))
    && (forall s, v :: Listed(env, a, s, v) && Complete(env, a, s, v) && Listed(env, b, s, v) ==>
      Complete(env, b, s, v))
    && (forall s, v :: Listed(env, a, s, v) && ManifestAt(a, s, v).Some? ==> ManifestAt(b, s, v).Some?)
  }

  /**
    The condition replication needs of its replica: wherever both sides list a version under
    different manifests, the blobs of the source's manifest are already good on the replica.
    It holds in particular when a version id names one manifest wherever it is present.
   */
  ghost predicate Ready(env: Env, src: Store, dst: Store) {
    forall s, v ::
      Listed(env, src, s, v) && Listed(env, dst, s, v) && Differs(src, dst, s, v) ==>
        Backed(env, dst, ManifestAt(src, s, v).value)
  }

  /** Nothing on the replica stops the copy of this version. */
  predicate Passable(env: Env, src: Store, dst: Store, s: string, v: string) {
    && Replaceable(dst.Source(s).manifests, ManifestName(v))
    && forall h :: h in NamedBlobs(env, src, s, v) ==> Replaceable(dst.blobs, h)
  }

  /** The blob comes with a version that is copied before position `i`. */
  predicate ComesBefore(env: Env, src: Store, s: string, i: nat, h: string) {
    exists j :: 0 <= j < i && j < |Order(env, src, s)| && h in NamedBlobs(env, src, s, Order(env, src, s)[j])
  }

  /** A run can get to position `i`, and overwrites there a listed version the replica holds completely. */
  predicate Exposed(env: Env, src: Store, dst: Store, s: string, i: nat) {
    && Enters(env, src, dst, s) && i < |Order(env, src, s)|
    && (forall j :: 0 <= j < i ==> Passable(env, src, dst, s, Order(env, src, s)[j]))
    && var v := Order(env, src, s)[i];
       Listed(env, dst, s, v) && Complete(env, dst, s, v) && Differs(src, dst, s, v)
  }

  /**
    What is needed exactly: wherever a complete version gets overwritten, each blob of its new
    manifest is good on the replica or has come with a version before it.
   */
  ghost predicate ReadyExact(env: Env, src: Store, dst: Store) {
    forall s, i: nat, h :: Exposed(env, src, dst, s, i) && h in NamedBlobs(env, src, s, Order(env, src, s)[i]) ==>
      GoodBlob(env, dst, h) || ComesBefore(env, src, s, i, h)
  }

  lemma ReadySuffices(env: Env, src: Store, dst: Store)
    requires Ready(env, src, dst)
    ensures ReadyExact(env, src, dst)
  {
    forall s, i: nat, h | Exposed(env, src, dst, s, i) && h in NamedBlobs(env, src, s, Order(env, src, s)[i])
      ensures GoodBlob(env, dst, h)
    {
      var v := Order(env, src, s)[i];
      assert Listed(env, src, s, v);
    }
  }

  predicate Differs(src: Store, dst: Store, s: string, v: string) {
    ManifestAt(src, s, v).Some? && ManifestAt(dst, s, v).Some? && ManifestAt(src, s, v) != ManifestAt(dst, s, v)
  }

  lemma SameManifestsReady(env: Env, src: Store, dst: Store)
    requires forall s, v :: ManifestAt(src, s, v).Some? && ManifestAt(dst, s, v).Some? ==>
               ManifestAt(src, s, v) == ManifestAt(dst, s, v)
    ensures Ready(env, src, dst)
  {
  }

  lemma ManifestNameInjective(v: string, w: string)
    requires ManifestName(v) == ManifestName(w)
    ensures v == w
  {
    assert |v| == |w|;
    assert v == ManifestName(v)[..|v|] && w == ManifestName(w)[..|w|];
  }

  /** A valid identifier contains no dot, so stripping the suffix from its file name gives it back. */
  lemma TrimJsonOfManifestName(v: string)
    requires ValidVersionId(v)
    ensures TrimJson(ManifestName(v)) == v
  {
    var name := ManifestName(v);
    assert name[|name| - 5..] == JSON && name[..|name| - 5] == v;
    if |v| >= 5 {
      assert v[|v| - 5..][0] == v[|v| - 5] && JSON[0] == '.';
    }
  }

  /** Where an operation leaves the manifest of version `v`. */
  lemma ManifestAfter(st: Store, e: Event, s: string, v: string)
    ensures ManifestAt(Apply(st, e), s, v) ==
            match e
            case PutManifest(s', name, raw) => if s' == s && name == ManifestName(v) then Some(raw)
              else ManifestAt(st, s, v)
            case DropManifest(s', name) => if s' == s && name == ManifestName(v) then None else ManifestAt(st, s, v)
            case _ => ManifestAt(st, s, v)
  {
  }

  lemma IndexAfter(env: Env, st: Store, e: Event, s: string)
    ensures Apply(st, e).Source(s).index == if e.PutIndex? && e.source == s then Some(Regular(e.raw))
              else st.Source(s).index
  {
  }

  /** Good blobs only grow. */
  lemma BlobsGrow(env: Env, src: Store, st: Store, e: Event)
    requires Legal(env, src, st, e)
    ensures forall h :: GoodBlob(env, st, h) ==> GoodBlob(env, Apply(st, e), h)
    ensures forall raw :: Backed(env, st, raw) ==> Backed(env, Apply(st, e), raw)
  {
  }

  predicate Overwrites(e: Event, s: string, v: string) {
    e.PutManifest? && e.source == s && e.name == ManifestName(v)
  }

  /** Overwriting the manifest of a listed, complete version is harmless only if the new one is backed. */
  ghost predicate SafeOverwrite(env: Env, st: Store, e: Event) {
    e.PutManifest? ==>
      forall v :: e.name == ManifestName(v) && Listed(env, st, e.source, v) && Complete(env, st, e.source, v) ==>
        Backed(env, st, e.raw)
  }

  /** A legal operation is safe exactly when it is not an overwrite by an unbacked manifest. */
  lemma LegalStepSafeIff(env: Env, src: Store, st: Store, e: Event)
    requires Legal(env, src, st, e)
    ensures SafeStep(env, st, Apply(st, e)) <==> SafeOverwrite(env, st, e)
  {
    var b := Apply(st, e);
    BlobsGrow(env, src, st, e);
    forall s, v | Listed(env, st, s, v)
      ensures ManifestAt(st, s, v).Some? ==> ManifestAt(b, s, v).Some?
      ensures SafeOverwrite(env, st, e) && Complete(env, st, s, v) ==> Complete(env, b, s, v)
    {
      KeepsListed(env, src, st, e, s, v);
    }
    if SafeStep(env, st, b) && e.PutManifest? {
      forall v | e.name == ManifestName(v) && Listed(env, st, e.source, v) && Complete(env, st, e.source, v)
        ensures Backed(env, st, e.raw)
      {
        IndexAfter(env, st, e, e.source);
        ManifestAfter(st, e, e.source, v);
        assert Complete(env, b, e.source, v);
        assert b.blobs == st.blobs;
      }
    }
  }

  lemma KeepsListed(env: Env, src: Store, st: Store, e: Event, s: string, v: string)
    requires Legal(env, src, st, e) && Listed(env, st, s, v)
    ensures ManifestAt(st, s, v).Some? ==> ManifestAt(Apply(st, e), s, v).Some?
    ensures Complete(env, st, s, v) && !Overwrites(e, s, v) ==> Complete(env, Apply(st, e), s, v)
    ensures SafeOverwrite(env, st, e) && Complete(env, st, s, v) ==> Complete(env, Apply(st, e), s, v)
  {
    ManifestAfter(st, e, s, v);
    BlobsGrow(env, src, st, e);
    if e.DropManifest? && e.source == s && e.name == ManifestName(v) {
      TrimJsonOfManifestName(v);
      assert false;
    }
  }

  /** The source's index has been published and everything it lists is mirrored. */
  ghost predicate Published(env: Env, src: Store, st: Store, s: string) {
    && IndexAt(env, src, s).Some?
    && st.Source(s).index == src.Source(s).index
    && forall v :: v in IndexAt(env, src, s).value.Ids() ==> Mirrored(env, src, st, s, v)
  }

  /** What cannot be replaced is still there. */
  ghost predicate ObstaclesStay(a: Store, b: Store) {
    && (forall h :: Replaceable(b.blobs, h) ==> Replaceable(a.blobs, h))
    && (forall s, name :: Replaceable(b.Source(s).manifests, name) ==> Replaceable(a.Source(s).manifests, name))
  }

  lemma ObstaclesStep(env: Env, src: Store, st: Store, e: Event)
    requires Legal(env, src, st, e)
    ensures ObstaclesStay(st, Apply(st, e))
  {
  }

  /**
    What publication means byte by byte: the index is the source's, and each manifest it lists is
    the source's, parses, and has under every hash it records a blob that decodes to that hash.
   */
  lemma PublishedMeans(env: Env, src: Store, dst: Store, s: string, i: nat)
    requires Published(env, src, dst, s) && i < |IndexAt(env, src, s).value.versions|
    ensures dst.Source(s).index == src.Source(s).index
    ensures var name := IndexAt(env, src, s).value.versions[i].id + ".json";
            && name in src.Source(s).manifests && name in dst.Source(s).manifests
            && dst.Source(s).manifests[name] == src.Source(s).manifests[name]
            && dst.Source(s).manifests[name].Regular?
            && env.parseManifest(dst.Source(s).manifests[name].content).Some?
            && var entries := env.parseManifest(dst.Source(s).manifests[name].content).value.entries;
               forall k :: 0 <= k < |entries| && entries[k].entry.kind.FileEntry? && entries[k].entry.sha256.Some? ==>
                 HoldsHash(env, dst, entries[k].entry.sha256.value)
  {
    var v := IndexAt(env, src, s).value.versions[i].id;
    assert v in IndexAt(env, src, s).value.Ids();
    assert Mirrored(env, src, dst, s, v);
    var m := env.parseManifest(ManifestAt(dst, s, v).value).value;
    forall k | 0 <= k < |m.entries| && m.entries[k].entry.kind.FileEntry? && m.entries[k].entry.sha256.Some?
      ensures HoldsHash(env, dst, m.entries[k].entry.sha256.value)
    {
      assert NamesBlob(m.entries[k].entry);
      assert m.entries[k].entry.sha256.value in BlobsOf(m);
    }
  }

  /** The blob under the hash decodes to a plaintext that has it. */
  ghost predicate HoldsHash(env: Env, st: Store, h: string) {
    && h in st.blobs && st.blobs[h].Regular?
    && Blobs.DecodeBlob(env.prims, env.cipher, st.blobs[h].content).Some?
    && env.prims.sha256Hex(Blobs.DecodeBlob(env.prims, env.cipher, st.blobs[h].content).value) == h
  }

  /** What holds of the replica at every point of a run that started at `origin`. */
  ghost predicate Midway(env: Env, src: Store, origin: Store, st: Store) {
    && (forall raw :: Backed(env, origin, raw) ==> Backed(env, st, raw))
    && (forall h :: GoodBlob(env, origin, h) ==> GoodBlob(env, st, h))
    && ObstaclesStay(origin, st)
    && (forall s, v :: ManifestAt(st, s, v).Some? ==>
          ManifestAt(st, s, v) == ManifestAt(origin, s, v) || ManifestAt(st, s, v) == ManifestAt(src, s, v))
    && (forall s :: st.Source(s).index == origin.Source(s).index || Published(env, src, st, s))
    && (forall s, v :: Listed(env, origin, s, v) && Complete(env, origin, s, v) && Listed(env, st, s, v) ==>
          Complete(env, st, s, v))
  }

  lemma MidwayOverwriteSafe(env: Env, src: Store, origin: Store, st: Store, e: Event)
    requires Ready(env, src, origin) && Midway(env, src, origin, st) && Legal(env, src, st, e)
    ensures SafeOverwrite(env, st, e)
  {
    if e.PutManifest? {
      var s := e.source;
      forall v | e.name == ManifestName(v) && Listed(env, st, s, v) && Complete(env, st, s, v)
        ensures Backed(env, st, e.raw)
      {
        var i := OverwrittenFrom(env, src, st, e, s, v);
        assert Listed(env, src, s, v);
        if ManifestAt(st, s, v) != Some(e.raw) {
          assert !Published(env, src, st, s);
          assert Listed(env, origin, s, v);
          assert Differs(src, origin, s, v);
        }
      }
    }
  }

  /** No operation undoes the copy of a version the source lists. */
  lemma MirroredKept(env: Env, src: Store, st: Store, e: Event, s: string, v: string)
    requires Legal(env, src, st, e) && Listed(env, src, s, v) && Mirrored(env, src, st, s, v)
    ensures Mirrored(env, src, Apply(st, e), s, v)
  {
    ManifestAfter(st, e, s, v);
    BlobsGrow(env, src, st, e);
    if Overwrites(e, s, v) {
      var i := OverwrittenFrom(env, src, st, e, s, v);
    } else if e.DropManifest? && e.source == s {
      KeepsListed(env, src, st, e, s, v);
    }
  }

  lemma PublishedKept(env: Env, src: Store, st: Store, e: Event, s: string)
    requires Legal(env, src, st, e) && Published(env, src, st, s)
    ensures Published(env, src, Apply(st, e), s)
  {
    BlobsGrow(env, src, st, e);
    IndexAfter(env, st, e, s);
    forall v | v in IndexAt(env, src, s).value.Ids()
      ensures Mirrored(env, src, Apply(st, e), s, v)
    {
      ManifestAfter(st, e, s, v);
      assert Listed(env, st, s, v);
      KeepsListed(env, src, st, e, s, v);
    }
  }

  lemma MidwayStep(env: Env, src: Store, origin: Store, st: Store, e: Event)
    requires ReadyExact(env, src, origin) && Midway(env, src, origin, st) && Legal(env, src, st, e)
    ensures Midway(env, src, origin, Apply(st, e))
  {
    var b := Apply(st, e);
    BlobsGrow(env, src, st, e);
    ObstaclesStep(env, src, st, e);
    forall s, v | ManifestAt(b, s, v).Some?
      ensures ManifestAt(b, s, v) == ManifestAt(origin, s, v) || ManifestAt(b, s, v) == ManifestAt(src, s, v)
    {
      ManifestAfter(st, e, s, v);
      if Overwrites(e, s, v) {
        var i := OverwrittenFrom(env, src, st, e, s, v);
      }
    }
    forall s
      ensures b.Source(s).index == origin.Source(s).index || Published(env, src, b, s)
    {
      MidwayIndex(env, src, origin, st, e, s);
    }
    forall s, v | Listed(env, origin, s, v) && Complete(env, origin, s, v) && Listed(env, b, s, v)
      ensures Complete(env, b, s, v)
    {
      MidwayComplete(env, src, origin, st, e, s, v);
    }
  }

  /** A version that was listed and complete at the start stays complete, also when its manifest is overwritten. */
  lemma MidwayComplete(env: Env, src: Store, origin: Store, st: Store, e: Event, s: string, v: string)
    requires ReadyExact(env, src, origin) && Midway(env, src, origin, st) && Legal(env, src, st, e)
    requires Listed(env, origin, s, v) && Complete(env, origin, s, v) && Listed(env, Apply(st, e), s, v)
    ensures Complete(env, Apply(st, e), s, v)
  {
    IndexAfter(env, st, e, s);
    ManifestAfter(st, e, s, v);
    BlobsGrow(env, src, st, e);
    if Overwrites(e, s, v) {
      var i := OverwrittenFrom(env, src, st, e, s, v);
      if ManifestAt(origin, s, v) != Some(e.raw) {
        assert Differs(src, origin, s, v);
        OverwriteBacked(env, src, origin, st, s, i);
      }
    } else if Listed(env, st, s, v) {
      KeepsListed(env, src, st, e, s, v);
    } else {
      assert Mirrored(env, src, st, s, v);
    }
  }

  /** By the time its turn comes, the source's manifest of an overwritten version has all its blobs. */
  lemma OverwriteBacked(env: Env, src: Store, origin: Store, st: Store, s: string, i: nat)
    requires ReadyExact(env, src, origin) && Midway(env, src, origin, st) && Turn(env, src, st, s, i)
    requires var v := Order(env, src, s)[i];
             Listed(env, origin, s, v) && Complete(env, origin, s, v) && Differs(src, origin, s, v)
    ensures Backed(env, st, ManifestAt(src, s, Order(env, src, s)[i]).value)
  {
    var order := Order(env, src, s);
    if Published(env, src, st, s) {
      assert Listed(env, src, s, order[i]);
      assert Mirrored(env, src, st, s, order[i]);
    } else {
      forall j | 0 <= j < i ensures Passable(env, src, origin, s, order[j]) {
        MirroredPassable(env, src, st, s, order[j]);
      }
      assert Exposed(env, src, origin, s, i);
      assert Complete(env, src, s, order[i]);
      forall h | h in NamedBlobs(env, src, s, order[i]) ensures GoodBlob(env, st, h) {
        if !GoodBlob(env, origin, h) {
          var j :| 0 <= j < i && h in NamedBlobs(env, src, s, order[j]);
          assert Mirrored(env, src, st, s, order[j]);
        }
      }
    }
  }

  lemma MirroredPassable(env: Env, src: Store, st: Store, s: string, v: string)
    requires Mirrored(env, src, st, s, v)
    ensures Passable(env, src, st, s, v)
  {
  }

  /** An overwrite is the turn of the version it overwrites. */
  lemma OverwrittenFrom(env: Env, src: Store, st: Store, e: Event, s: string, v: string) returns (i: nat)
    requires Legal(env, src, st, e) && Overwrites(e, s, v)
    ensures Turn(env, src, st, s, i) && Order(env, src, s)[i] == v && Carries(src, e, s, v)
  {
    i :| Turn(env, src, st, s, i) && Carries(src, e, s, Order(env, src, s)[i]);
    ManifestNameInjective(v, Order(env, src, s)[i]);
  }

  lemma MidwayIndex(env: Env, src: Store, origin: Store, st: Store, e: Event, s: string)
    requires Midway(env, src, origin, st) && Legal(env, src, st, e)
    ensures Apply(st, e).Source(s).index == origin.Source(s).index || Published(env, src, Apply(st, e), s)
  {
    IndexAfter(env, st, e, s);
    if e.PutIndex? && e.source == s {
      BlobsGrow(env, src, st, e);
      forall v | v in IndexAt(env, src, s).value.Ids()
        ensures Mirrored(env, src, Apply(st, e), s, v)
      {
        assert Mirrored(env, src, st, s, v);
        ManifestAfter(st, e, s, v);
      }
    } else if Published(env, src, st, s) {
      PublishedKept(env, src, st, e, s);
    }
  }

  lemma LegalAt(env: Env, src: Store, origin: Store, log: seq<Event>, k: nat)
    requires LegalLog(env, src, origin, log) && k < |log|
    ensures Legal(env, src, Run(origin, log[..k]), log[k])
    ensures Run(origin, log[..k + 1]) == Apply(Run(origin, log[..k]), log[k])
  {
    assert log[..k + 1][..k] == log[..k];
  }

  /**
    Crash safety.  From a replica that is ready, after every atomic operation of every legal run:
    the operation kept the good blobs, the complete listed versions and the listed manifests, and
    each version that was listed and complete at the start and is listed now is complete now.
   */
  lemma CrashSafety(env: Env, src: Store, origin: Store, log: seq<Event>, k: nat)
    requires Ready(env, src, origin) && LegalLog(env, src, origin, log) && k <= |log|
    ensures Midway(env, src, origin, Run(origin, log[..k]))
    ensures k > 0 ==> SafeStep(env, Run(origin, log[..k - 1]), Run(origin, log[..k]))
  {
    ReadySuffices(env, src, origin);
    MidwayThroughout(env, src, origin, log, k);
    if k > 0 {
      MidwayThroughout(env, src, origin, log, k - 1);
      StepSafeAt(env, src, origin, log, k - 1);
    }
  }

  lemma StepSafeAt(env: Env, src: Store, origin: Store, log: seq<Event>, k: nat)
    requires Ready(env, src, origin) && LegalLog(env, src, origin, log) && k < |log|
    requires Midway(env, src, origin, Run(origin, log[..k]))
    ensures SafeStep(env, Run(origin, log[..k]), Run(origin, log[..k + 1]))
  {
    LegalAt(env, src, origin, log, k);
    StepSafe(env, src, origin, Run(origin, log[..k]), log[k]);
  }

  lemma StepSafe(env: Env, src: Store, origin: Store, st: Store, e: Event)
    requires Ready(env, src, origin) && Midway(env, src, origin, st) && Legal(env, src, st, e)
    ensures SafeStep(env, st, Apply(st, e))
  {
    MidwayOverwriteSafe(env, src, origin, st, e);
    LegalStepSafeIff(env, src, st, e);
  }

  lemma {:induction false} MidwayThroughout(env: Env, src: Store, origin: Store, log: seq<Event>, k: nat)
    requires ReadyExact(env, src, origin) && LegalLog(env, src, origin, log) && k <= |log|
    ensures Midway(env, src, origin, Run(origin, log[..k]))
  {
    if k == 0 {
      MidwayStart(env, src, origin);
      assert log[..0] == [];
    } else {
      MidwayThroughout(env, src, origin, log, k - 1);
      LegalAt(env, src, origin, log, k - 1);
      MidwayStep(env, src, origin, Run(origin, log[..k - 1]), log[k - 1]);
    }
  }

  lemma MidwayStart(env: Env, src: Store, origin: Store)
    ensures Midway(env, src, origin, origin)
  {
  }

  /** Versions listed and complete at the start, and still listed, are complete. */
  ghost predicate Survives(env: Env, origin: Store, st: Store) {
    forall s, v :: Listed(env, origin, s, v) && Complete(env, origin, s, v) && Listed(env, st, s, v) ==>
      Complete(env, st, s, v)
  }

  /**
    The exact condition: complete listed versions survive every run, to whatever operation it
    gets, if and only if each one that gets overwritten has the blobs of its new manifest by then.
   */
  lemma SurvivalIff(env: Env, src: Store, origin: Store)
    ensures (forall log :: LegalLog(env, src, origin, log) ==> Survives(env, origin, Run(origin, log))) <==>
            ReadyExact(env, src, origin)
  {
    if ReadyExact(env, src, origin) {
      forall log | LegalLog(env, src, origin, log) ensures Survives(env, origin, Run(origin, log)) {
        MidwayThroughout(env, src, origin, log, |log|);
        assert log[..|log|] == log;
      }
    } else {
      var s, i: nat, h :| Exposed(env, src, origin, s, i) && h in NamedBlobs(env, src, s, Order(env, src, s)[i]) &&
        !(GoodBlob(env, origin, h) || ComesBefore(env, src, s, i, h));
      var log := OverwriteRun(env, src, origin, s, i, h);
    }
  }

  predicate SameSlot(a: map<string, Slot>, b: map<string, Slot>, name: string) {
    (name in a <==> name in b) && (name in a ==> a[name] == b[name])
  }

  /** From `a` to `b` these blobs were copied, and nothing else changed. */
  ghost predicate BlobsCopied(env: Env, a: Store, b: Store, hashes: set<string>) {
    && b.sources == a.sources
    && (forall h :: h in hashes ==> GoodBlob(env, b, h))
    && (forall h :: h !in hashes ==> SameSlot(a.blobs, b.blobs, h))
  }

  /** A run that copies blobs and nothing else. */
  lemma {:induction false} CopyBlobsRun(env: Env, src: Store, origin: Store, log: seq<Event>, hashes: set<string>)
    returns (more: seq<Event>)
    requires LegalLog(env, src, origin, log)
    requires forall h :: h in hashes ==> GoodBlob(env, src, h) && Replaceable(Run(origin, log).blobs, h)
    ensures LegalLog(env, src, origin, more) && BlobsCopied(env, Run(origin, log), Run(origin, more), hashes)
    decreases |hashes|
  {
    more := log;
    if hashes != {} {
      var h :| h in hashes;
      var init := CopyBlobsRun(env, src, origin, log, hashes - {h});
      more := CopyBlobRun(env, src, origin, init, h, Run(origin, log), hashes);
    }
  }

  lemma CopyBlobRun(env: Env, src: Store, origin: Store, log: seq<Event>, h: string, a: Store, hashes: set<string>)
    returns (more: seq<Event>)
    requires LegalLog(env, src, origin, log) && h in hashes && GoodBlob(env, src, h) && Replaceable(a.blobs, h)
    requires BlobsCopied(env, a, Run(origin, log), hashes - {h})
    ensures LegalLog(env, src, origin, more) && BlobsCopied(env, a, Run(origin, more), hashes)
  {
    var st, e := Run(origin, log), PutBlob(h, src.blobs[h].content);
    assert SameSlot(a.blobs, st.blobs, h);
    more := PerformNext(env, src, origin, log, e);
    forall x | x in hashes ensures GoodBlob(env, Run(origin, more), x) {
      assert x != h ==> x in hashes - {h};
    }
    forall x | x !in hashes ensures SameSlot(a.blobs, Run(origin, more).blobs, x) {
      assert SameSlot(a.blobs, st.blobs, x) && SameSlot(st.blobs, Run(origin, more).blobs, x);
    }
  }

  lemma PerformNext(env: Env, src: Store, origin: Store, log: seq<Event>, e: Event) returns (more: seq<Event>)
    requires LegalLog(env, src, origin, log) && Legal(env, src, Run(origin, log), e)
    ensures LegalLog(env, src, origin, more) && Run(origin, more) == Apply(Run(origin, log), e)
  {
    more := log + [e];
    LegalLogSnoc(env, src, origin, log, e);
    assert more[..|log|] == log;
  }

  /** The replica once the versions before position `i` have been copied, and nothing else done. */
  ghost predicate CopiedUpTo(env: Env, src: Store, origin: Store, st: Store, s: string, i: nat)
    requires i <= |Order(env, src, s)|
  {
    && st.Source(s).index == origin.Source(s).index
    && (forall j :: 0 <= j < i ==> Mirrored(env, src, st, s, Order(env, src, s)[j]))
    && (forall h :: !ComesBefore(env, src, s, i, h) ==> SameSlot(origin.blobs, st.blobs, h))
    && (forall name :: Replaceable(origin.Source(s).manifests, name) ==> Replaceable(st.Source(s).manifests, name))
  }

  /** The turn's manifest is written if it differs. */
  lemma CopyManifestRun(env: Env, src: Store, origin: Store, log: seq<Event>, s: string, i: nat)
    returns (more: seq<Event>)
    requires LegalLog(env, src, origin, log) && Turn(env, src, Run(origin, log), s, i)
    requires CopiedUpTo(env, src, origin, Run(origin, log), s, i)
    requires Passable(env, src, origin, s, Order(env, src, s)[i])
    ensures LegalLog(env, src, origin, more) && CopiedUpTo(env, src, origin, Run(origin, more), s, i)
    ensures var v := Order(env, src, s)[i]; ManifestAt(Run(origin, more), s, v) == ManifestAt(src, s, v)
    ensures Run(origin, more).blobs == Run(origin, log).blobs
  {
    var v, before := Order(env, src, s)[i], Run(origin, log);
    more := log;
    if ManifestAt(before, s, v) != ManifestAt(src, s, v) {
      assert Complete(env, src, s, v);
      var e := PutManifest(s, ManifestName(v), ManifestAt(src, s, v).value);
      assert Carries(src, e, s, v);
      more := PerformNext(env, src, origin, log, e);
      ManifestAfter(before, e, s, v);
      IndexAfter(env, before, e, s);
      forall j | 0 <= j < i ensures Mirrored(env, src, Run(origin, more), s, Order(env, src, s)[j]) {
        MirroredKept(env, src, before, e, s, Order(env, src, s)[j]);
      }
    }
  }

  /** Then its blobs that are not good. */
  lemma CopyMissingRun(env: Env, src: Store, origin: Store, log: seq<Event>, s: string, i: nat)
    returns (more: seq<Event>)
    requires LegalLog(env, src, origin, log) && Turn(env, src, Run(origin, log), s, i)
    requires CopiedUpTo(env, src, origin, Run(origin, log), s, i)
    requires var v := Order(env, src, s)[i];
             Passable(env, src, origin, s, v) && ManifestAt(Run(origin, log), s, v) == ManifestAt(src, s, v)
    ensures LegalLog(env, src, origin, more) && CopiedUpTo(env, src, origin, Run(origin, more), s, i + 1)
  {
    var order, before := Order(env, src, s), Run(origin, log);
    assert Complete(env, src, s, order[i]);
    forall h | ComesBefore(env, src, s, i, h) ensures GoodBlob(env, before, h) {
      var j :| 0 <= j < i && h in NamedBlobs(env, src, s, order[j]);
      assert Mirrored(env, src, before, s, order[j]);
    }
    var missing := set h | h in NamedBlobs(env, src, s, order[i]) && !GoodBlob(env, before, h);
    forall h | h in missing ensures Replaceable(before.blobs, h) {
      assert SameSlot(origin.blobs, before.blobs, h);
    }
    more := CopyBlobsRun(env, src, origin, log, missing);
    CopiedOneMore(env, src, origin, before, Run(origin, more), s, i, missing);
  }

  lemma CopiedOneMore(env: Env, src: Store, origin: Store, a: Store, b: Store, s: string, i: nat, missing: set<string>)
    requires i < |Order(env, src, s)| && CopiedUpTo(env, src, origin, a, s, i)
    requires var v := Order(env, src, s)[i];
             && Complete(env, src, s, v) && ManifestAt(a, s, v) == ManifestAt(src, s, v)
             && missing == set h | h in NamedBlobs(env, src, s, v) && !GoodBlob(env, a, h)
    requires BlobsCopied(env, a, b, missing)
    ensures CopiedUpTo(env, src, origin, b, s, i + 1)
  {
    var order := Order(env, src, s);
    forall h | GoodBlob(env, a, h) ensures GoodBlob(env, b, h) {
      assert h !in missing;
    }
    forall j | 0 <= j < i + 1 ensures Mirrored(env, src, b, s, order[j]) {
      assert j < i ==> Mirrored(env, src, a, s, order[j]);
    }
    forall h | !ComesBefore(env, src, s, i + 1, h) ensures SameSlot(origin.blobs, b.blobs, h) {
      assert h !in NamedBlobs(env, src, s, order[i]);
      assert !ComesBefore(env, src, s, i, h);
      assert SameSlot(origin.blobs, a.blobs, h) && SameSlot(a.blobs, b.blobs, h);
    }
  }

  /** The run that copies the versions before position `i`, in order. */
  lemma {:induction false} CopyRun(env: Env, src: Store, origin: Store, s: string, i: nat) returns (log: seq<Event>)
    requires Enters(env, src, origin, s) && i <= |Order(env, src, s)|
    requires forall j :: 0 <= j < i ==> Passable(env, src, origin, s, Order(env, src, s)[j])
    ensures LegalLog(env, src, origin, log) && CopiedUpTo(env, src, origin, Run(origin, log), s, i)
  {
    log := [];
    if i > 0 {
      log := CopyRun(env, src, origin, s, i - 1);
      log := CopyManifestRun(env, src, origin, log, s, i - 1);
      log := CopyMissingRun(env, src, origin, log, s, i - 1);
    }
  }

  /** The run that gets to an exposed version, overwrites it, and stops there. */
  lemma OverwriteRun(env: Env, src: Store, origin: Store, s: string, i: nat, h: string) returns (log: seq<Event>)
    requires Exposed(env, src, origin, s, i) && h in NamedBlobs(env, src, s, Order(env, src, s)[i])
    requires !GoodBlob(env, origin, h) && !ComesBefore(env, src, s, i, h)
    ensures LegalLog(env, src, origin, log) && !Survives(env, origin, Run(origin, log))
  {
    var v := Order(env, src, s)[i];
    log := CopyRun(env, src, origin, s, i);
    assert Passable(env, src, origin, s, v) || Replaceable(origin.Source(s).manifests, ManifestName(v));
    log := OverwriteNext(env, src, origin, log, s, i);
    var st := Run(origin, log);
    assert SameSlot(origin.blobs, st.blobs, h);
    assert Listed(env, st, s, v) && !Complete(env, st, s, v);
  }

  lemma OverwriteNext(env: Env, src: Store, origin: Store, log: seq<Event>, s: string, i: nat)
    returns (more: seq<Event>)
    requires LegalLog(env, src, origin, log) && Turn(env, src, Run(origin, log), s, i)
    requires Replaceable(Run(origin, log).Source(s).manifests, ManifestName(Order(env, src, s)[i]))
    ensures LegalLog(env, src, origin, more)
    ensures var (v, a, b) := (Order(env, src, s)[i], Run(origin, log), Run(origin, more));
            && ManifestAt(b, s, v) == ManifestAt(src, s, v) && b.blobs == a.blobs
            && b.Source(s).index == a.Source(s).index
  {
    var v, before := Order(env, src, s)[i], Run(origin, log);
    assert Complete(env, src, s, v);
    var e := PutManifest(s, ManifestName(v), ManifestAt(src, s, v).value);
    assert Carries(src, e, s, v);
    more := PerformNext(env, src, origin, log, e);
    ManifestAfter(before, e, s, v);
    IndexAfter(env, before, e, s);
  }

  /** A run leaves the replica ready, so the next one after a crash is safe too. */
  lemma StaysReady(env: Env, src: Store, origin: Store, log: seq<Event>, k: nat)
    requires Ready(env, src, origin) && LegalLog(env, src, origin, log) && k <= |log|
    ensures Ready(env, src, Run(origin, log[..k]))
  {
    CrashSafety(env, src, origin, log, k);
    var st := Run(origin, log[..k]);
    forall s, v | Listed(env, src, s, v) && Listed(env, st, s, v) && Differs(src, st, s, v)
      ensures Backed(env, st, ManifestAt(src, s, v).value)
    {
      assert !Published(env, src, st, s);
      assert Listed(env, origin, s, v);
      assert Differs(src, origin, s, v);
    }
  }

  /** Every operation of the run was safe, and every state it passed through was consistent. */
  ghost predicate CrashSafe(env: Env, src: Store, origin: Store, log: seq<Event>) {
    forall k :: 0 <= k <= |log| ==>
      && Midway(env, src, origin, Run(origin, log[..k]))
      && (k > 0 ==> SafeStep(env, Run(origin, log[..k - 1]), Run(origin, log[..k])))
  }

  lemma LegalRunsAreCrashSafe(env: Env, src: Store, origin: Store, log: seq<Event>)
    requires Ready(env, src, origin) && LegalLog(env, src, origin, log)
    ensures CrashSafe(env, src, origin, log)
  {
    forall k | 0 <= k <= |log|
      ensures Midway(env, src, origin, Run(origin, log[..k]))
      ensures k > 0 ==> SafeStep(env, Run(origin, log[..k - 1]), Run(origin, log[..k]))
    {
      CrashSafety(env, src, origin, log, k);
    }
  }

  // ----- Why readiness is needed -----

  const SAMPLE_HASH: string := seq(64, i => '0')

  function SampleEnv(): Env {
    Env(Blobs.Primitives((pt, level) => None, (ct, cap) => None,
                         (key, nonce, position, last, pt) => None, (key, nonce, position, last, ct) => None,
                         plain => SAMPLE_HASH),
        None,
        raw => Some(VersionIndex("src", [VersionInfo("v1", 1)], None, None)),
        raw => Some(Manifest("src", if raw == [1] then [] else
                      [KeyedEntry("a", ManifestEntry(FileEntry, "a", 0, 0, 0, Some(SAMPLE_HASH)))])))
  }

  /**
    Without it the property fails: a version that is listed and complete on the replica under
    another manifest is left without its blob when the run stops after the first operation.
   */
  lemma UnreadyReplicaBreaks() returns (env: Env, src: Store, origin: Store, log: seq<Event>)
    ensures LegalLog(env, src, origin, log) && Complete(env, src, "s", "v1")
    ensures Listed(env, origin, "s", "v1") && Complete(env, origin, "s", "v1")
    ensures Listed(env, Run(origin, log), "s", "v1") && !Complete(env, Run(origin, log), "s", "v1")
  {
    env := SampleEnv();
    src := Store(map["s" := SourceDir(Some(Regular([])), map["v1.json" := Regular([2])], None)],
                     map[SAMPLE_HASH := Regular([])]);
    origin := Store(map["s" := SourceDir(Some(Regular([])), map["v1.json" := Regular([1])], None)], map[]);
    assert ManifestName("v1") == "v1.json";
    var m := env.parseManifest([2]).value;
    assert NamesBlob(m.entries[0].entry);
    assert SAMPLE_HASH in BlobsOf(m);
    forall h | h in BlobsOf(m) ensures ValidHash(h) && GoodBlob(env, src, h) {
    }
    assert Complete(env, src, "s", "v1");
    assert Complete(env, origin, "s", "v1") by {
      assert env.parseManifest([1]).value.entries == [];
    }
    assert Order(env, src, "s") == Order(env, origin, "s") == ["v1"];
    assert Turn(env, src, origin, "s", 0);
    log := OverwriteNext(env, src, origin, [], "s", 0);
    assert !Complete(env, Run(origin, log), "s", "v1");
  }

  // ----- The run itself -----

  datatype PairCounters = PairCounters(manifestsCopied: nat, blobsCopied: nat, bytesCopied: nat, manifestsDeleted: nat)

  const ZERO := PairCounters(0, 0, 0, 0)

  function Count(c: PairCounters, e: Event): PairCounters {
    match e
    case MakeSource(_) => c
    case PutManifest(_, _, raw) => c.(manifestsCopied := c.manifestsCopied + 1,
      bytesCopied := SaturatingAdd(c.bytesCopied, |raw|))
    case PutBlob(_, raw) => c.(blobsCopied := c.blobsCopied + 1, bytesCopied := SaturatingAdd(c.bytesCopied, |raw|))
    case PutReport(_, raw) => c.(bytesCopied := SaturatingAdd(c.bytesCopied, |raw|))
    case PutIndex(_, raw) => c.(bytesCopied := SaturatingAdd(c.bytesCopied, |raw|))
    case DropManifest(_, _) => c.(manifestsDeleted := c.manifestsDeleted + 1)
  }

  /** What a run did, in numbers. */
  function Tally(log: seq<Event>): PairCounters {
    if log == [] then ZERO else Count(Tally(log[..|log| - 1]), log[|log| - 1])
  }

  /** The positions of the operations of one kind. */
  function Which(log: seq<Event>, kind: Event -> bool): set<nat> {
    set k: nat | k < |log| && kind(log[k])
  }

  /** The bytes the copies of a run moved. */
  function Volume(log: seq<Event>): nat {
    if log == [] then 0
    else
      var e := log[|log| - 1];
      Volume(log[..|log| - 1]) +
        if e.PutManifest? || e.PutBlob? || e.PutReport? || e.PutIndex? then |e.raw| else 0
  }

  lemma WhichSnoc(log: seq<Event>, kind: Event -> bool)
    requires log != []
    ensures var n := |log| - 1;
            Which(log, kind) == if kind(log[n]) then Which(log[..n], kind) + {n} else Which(log[..n], kind)
    ensures |Which(log, kind)| == |Which(log[..|log| - 1], kind)| + if kind(log[|log| - 1]) then 1 else 0
  {
    var n := |log| - 1;
    assert Which(log, kind) == if kind(log[n]) then Which(log[..n], kind) + {n} else Which(log[..n], kind);
  }

  /** The counters say how many operations of each kind there were and, up to saturation, how many bytes. */
  lemma {:induction false} TallyCounts(log: seq<Event>)
    ensures var c := Tally(log);
            && c.manifestsCopied == |Which(log, (e: Event) => e.PutManifest?)|
            && c.blobsCopied == |Which(log, (e: Event) => e.PutBlob?)|
            && c.manifestsDeleted == |Which(log, (e: Event) => e.DropManifest?)|
            && c.bytesCopied == Min(Volume(log), U64_MAX)
  {
    if log == [] {
      assert forall kind :: Which(log, kind) == {};
    } else {
      TallyCounts(log[..|log| - 1]);
      WhichSnoc(log, (e: Event) => e.PutManifest?);
      WhichSnoc(log, (e: Event) => e.PutBlob?);
      WhichSnoc(log, (e: Event) => e.DropManifest?);
    }
  }

  /** How many manifests of a source were deleted. */
  function Drops(log: seq<Event>, s: string): nat {
    if log == [] then 0
    else
      var e := log[|log| - 1];
      Drops(log[..|log| - 1], s) + if e.DropManifest? && e.source == s then 1 else 0
  }

  /** The source an operation is about; a blob is about none. */
  function SourceOf(e: Event): Option<string> {
    if e.PutBlob? then None else Some(e.source)
  }

  /** The replica's files and the record of every operation performed on them. */
  class Replica {
    var store: Store
    var failed: bool
    ghost const origin: Store
    ghost var log: seq<Event>

    constructor (store: Store)
      ensures this.store == store && origin == store && log == [] && !failed
    {
      this.store, failed, origin, log := store, false, store, [];
    }

    ghost predicate Valid(env: Env, src: Store)
      reads this
    {
      store == Run(origin, log) && LegalLog(env, src, origin, log)
    }

    /** One atomic file operation: it happens completely or, on an I/O error, not at all. */
    method Perform(env: Env, ghost src: Store, e: Event) returns (ok: bool)
      requires Valid(env, src) && Legal(env, src, store, e)
      modifies this
      ensures Valid(env, src)
      ensures ok ==> store == Apply(old(store), e) && log == old(log) + [e] && Tally(log) == Count(Tally(old(log)), e)
      ensures !ok ==> store == old(store) && log == old(log) && failed
      ensures Kept(env, src, old(store), store)
      ensures forall x :: SourceOf(e) != Some(x) ==> store.Source(x) == old(store).Source(x)
      ensures forall x :: Drops(log, x) ==
                          Drops(old(log), x) + if ok && e.DropManifest? && e.source == x then 1 else 0
    {
      ok := *;
      if !ok {
        failed := true;
      } else {
        KeptByLegal(env, src, store, e);
        store := Apply(store, e);
        LegalLogSnoc(env, src, origin, log, e);
        assert (log + [e])[..|log|] == log;
        log := log + [e];
      }
    }
  }

  lemma LegalLogSnoc(env: Env, src: Store, origin: Store, log: seq<Event>, e: Event)
    requires LegalLog(env, src, origin, log) && Legal(env, src, Run(origin, log), e)
    ensures LegalLog(env, src, origin, log + [e])
  {
    forall k | 0 <= k < |log + [e]|
      ensures Legal(env, src, Run(origin, (log + [e])[..k]), (log + [e])[k])
    {
      if k < |log| {
        assert (log + [e])[..k] == log[..k];
      } else {
        assert (log + [e])[..k] == log;
      }
    }
  }

  /** Work on one source leaves the others alone. */
  ghost predicate OnlyFor(s: string, a: Store, b: Store, before: seq<Event>, after: seq<Event>) {
    forall x :: x != s ==> b.Source(x) == a.Source(x) && Drops(after, x) == Drops(before, x)
  }

  /** Work on one source that deletes nothing. */
  ghost predicate Copies(s: string, a: Store, b: Store, before: seq<Event>, after: seq<Event>) {
    OnlyFor(s, a, b, before, after) && Drops(after, s) == Drops(before, s)
  }

  /** Progress that legal operations never undo. */
  ghost predicate Kept(env: Env, src: Store, a: Store, b: Store) {
    && ObstaclesStay(a, b)
    && (forall raw :: Backed(env, a, raw) ==> Backed(env, b, raw))
    && (forall h :: GoodBlob(env, a, h) ==> GoodBlob(env, b, h))
    && (forall s :: Published(env, src, a, s) ==> Published(env, src, b, s))
    && (forall s, v :: Listed(env, src, s, v) && Mirrored(env, src, a, s, v) ==> Mirrored(env, src, b, s, v))
  }

  lemma KeptByLegal(env: Env, src: Store, st: Store, e: Event)
    requires Legal(env, src, st, e)
    ensures Kept(env, src, st, Apply(st, e))
  {
    BlobsGrow(env, src, st, e);
    ObstaclesStep(env, src, st, e);
    forall s | Published(env, src, st, s) ensures Published(env, src, Apply(st, e), s) {
      PublishedKept(env, src, st, e, s);
    }
    forall s, v | Listed(env, src, s, v) && Mirrored(env, src, st, s, v)
      ensures Mirrored(env, src, Apply(st, e), s, v)
    {
      MirroredKept(env, src, st, e, s, v);
    }
  }

  /** `sha256_plaintext_blob` on a stored blob; an I/O error or timeout also gives None. */
  method HashBlob(env: Env, blob: bytes) returns (r: Option<string>, ioFailed: bool)
    ensures if ioFailed then r.None? else r == env.PlainHash(blob)
  {
    var reader := new Reader(blob);
    assert blob[0..] == blob;
    r := Sha256PlaintextBlob(env.prims, env.cipher, reader);
    ioFailed := reader.failed;
  }

  const COMPARE_BUFFER_BYTES := 64 * 1024

  /**
    `files_have_identical_contents`: both files are read in step, so reads of unequal length are
    reported as a difference even when the contents agree; every other answer is right.
   */
  method FilesIdentical(left: bytes, right: bytes) returns (r: Option<bool>, ragged: bool)
    ensures r == Some(true) ==> left == right
    ensures r == Some(false) && !ragged ==> left != right
    ensures r.Some? && |left| != |right| ==> r == Some(false)
  {
    ragged := false;
    if |left| != |right| {
      return Some(false), false;
    }
    var l := new Reader(left);
    var q := new Reader(right);
    var lbuf := new byte[COMPARE_BUFFER_BYTES];
    var rbuf := new byte[COMPARE_BUFFER_BYTES];
    ghost var common: bytes := [];
    assert left == [] + l.Unread() && right == [] + q.Unread();
    while true
      invariant l.Valid() && q.Valid()
      invariant left == common + l.Unread() && right == common + q.Unread()
      decreases |l.Unread()|
    {
      var n := ReadChunk(l, lbuf);
      if n.None? {
        return None, false;
      }
      var m := ReadChunk(q, rbuf);
      if m.None? {
        return None, false;
      }
      if n.value != m.value || lbuf[..n.value] != rbuf[..m.value] {
        ragged := n.value != m.value;
        if !ragged {
          PartsDiffer(common, lbuf[..n.value], l.Unread(), rbuf[..m.value], q.Unread());
        }
        return Some(false), ragged;
      }
      if n.value == 0 {
        return Some(true), false;
      }
      Assoc(common, lbuf[..n.value], l.Unread());
      Assoc(common, lbuf[..n.value], q.Unread());
      common := common + lbuf[..n.value];
    }
  }

  lemma PartsDiffer(common: bytes, a: bytes, x: bytes, b: bytes, y: bytes)
    requires |a| == |b| && a != b
    ensures common + (a + x) != common + (b + y)
  {
    var k := |common|;
    assert (common + (a + x))[k..k + |a|] == a;
    assert (common + (b + y))[k..k + |a|] == b;
  }

  datatype Plan = Plan(version: string, raw: bytes, blobs: seq<string>)

  /** The plan copies this version's manifest and exactly the blobs it names, all good on the source. */
  ghost predicate PlanFor(env: Env, src: Store, s: string, version: string, plan: Plan) {
    && plan.version == version
    && ManifestAt(src, s, version) == Some(plan.raw)
    && env.parseManifest(plan.raw).Some?
    && (set h | h in plan.blobs) == BlobsOf(env.parseManifest(plan.raw).value)
    && (forall h :: h in plan.blobs ==> ValidHash(h) && GoodBlob(env, src, h))
  }

  /** The entry loop of `build_replication_plans`. */
  method PlanBlobs(env: Env, src: Store, m: Manifest) returns (r: Option<seq<string>>, ioFailed: bool)
    ensures r.None? && !ioFailed ==> exists h :: h in BlobsOf(m) && !(ValidHash(h) && GoodBlob(env, src, h))
    ensures r.Some? ==>
              && (set h | h in r.value) == BlobsOf(m)
              && (forall h :: h in r.value ==> ValidHash(h) && GoodBlob(env, src, h))
              && (forall i, j :: 0 <= i < j < |r.value| ==> r.value[i] != r.value[j])
  {
    ioFailed := false;
    var blobs: seq<string> := [];
    for i := 0 to |m.entries|
      invariant forall k :: 0 <= k < i && NamesBlob(m.entries[k].entry) ==> m.entries[k].entry.sha256.value in blobs
      invariant forall h :: h in blobs ==> h in BlobsOf(m)
      invariant forall h :: h in blobs ==> ValidHash(h) && GoodBlob(env, src, h)
      invariant forall a, b :: 0 <= a < b < |blobs| ==> blobs[a] != blobs[b]
    {
      var entry := m.entries[i].entry;
      if !entry.kind.FileEntry? || entry.sha256.None? {
        continue;
      }
      var hash := entry.sha256.value;
      assert NamesBlob(m.entries[i].entry) && hash in BlobsOf(m);
      if !ValidHash(hash) {
        return None, false;
      }
      if hash in blobs {
        continue;
      }
      if hash !in src.blobs || src.blobs[hash].NotRegular? {
        return None, false;
      }
      var actual;
      actual, ioFailed := HashBlob(env, src.blobs[hash].content);
      if actual != Some(hash) {
        return None, ioFailed;
      }
      assert forall h :: h in blobs + [hash] <==> h in blobs || h == hash;
      blobs := blobs + [hash];
    }
    r := Some(blobs);
  }

  /** `build_replication_plans`. */
  method BuildPlans(env: Env, src: Store, s: string, index: VersionIndex) returns (r: Option<seq<Plan>>, ioFailed: bool)
    ensures r.None? && !ioFailed ==>
              exists i :: 0 <= i < |index.versions| && !Complete(env, src, s, index.versions[i].id)
    ensures r.Some? ==>
              && |r.value| == |index.versions|
              && forall i :: 0 <= i < |r.value| ==> PlanFor(env, src, s, index.versions[i].id, r.value[i])
  {
    ioFailed := false;
    var plans: seq<Plan> := [];
    for i := 0 to |index.versions|
      invariant |plans| == i
      invariant forall k :: 0 <= k < i ==> PlanFor(env, src, s, index.versions[k].id, plans[k])
    {
      var version := index.versions[i].id;
      var raw := ManifestAt(src, s, version);
      if raw.None? {
        return None, false;
      }
      var m := env.parseManifest(raw.value);
      if m.None? {
        return None, false;
      }
      var blobs;
      blobs, ioFailed := PlanBlobs(env, src, m.value);
      if blobs.None? {
        return None, ioFailed;
      }
      plans := plans + [Plan(version, raw.value, blobs.value)];
    }
    r := Some(plans);
  }

  /** `validate_manifest_artifacts`. */
  method ValidateArtifacts(env: Env, st: Store, s: string, version: string) returns (ok: bool, ioFailed: bool)
    ensures ok ==> Complete(env, st, s, version)
    ensures !ok && !ioFailed ==> !Complete(env, st, s, version)
  {
    ioFailed := false;
    var raw := ManifestAt(st, s, version);
    if raw.None? {
      return false, false;
    }
    var m := env.parseManifest(raw.value);
    if m.None? {
      return false, false;
    }
    for i := 0 to |m.value.entries|
      invariant forall k :: 0 <= k < i && NamesBlob(m.value.entries[k].entry) ==>
                  var h := m.value.entries[k].entry.sha256.value; ValidHash(h) && GoodBlob(env, st, h)
    {
      var entry := m.value.entries[i].entry;
      if !entry.kind.FileEntry? || entry.sha256.None? {
        continue;
      }
      var hash := entry.sha256.value;
      assert hash in BlobsOf(m.value);
      if !ValidHash(hash) || hash !in st.blobs || st.blobs[hash].NotRegular? {
        return false, false;
      }
      var actual;
      actual, ioFailed := HashBlob(env, st.blobs[hash].content);
      if actual != Some(hash) {
        return false, ioFailed;
      }
    }
    ok := true;
  }

  /** `validate_replication_plans`: the check made immediately before publication. */
  method ValidatePlans(env: Env, src: Store, dst: Store, s: string, plans: seq<Plan>) returns (ok: bool, excused: bool)
    ensures ok ==> forall i :: 0 <= i < |plans| ==> Mirrored(env, src, dst, s, plans[i].version)
    ensures !ok && !excused ==> exists i :: 0 <= i < |plans| && !Mirrored(env, src, dst, s, plans[i].version)
  {
    excused := false;
    for i := 0 to |plans|
      invariant forall k :: 0 <= k < i ==> Mirrored(env, src, dst, s, plans[k].version)
    {
      var left, right := ManifestAt(src, s, plans[i].version), ManifestAt(dst, s, plans[i].version);
      if left.None? || right.None? {
        assert !Mirrored(env, src, dst, s, plans[i].version);
        return false, false;
      }
      var same, ragged := FilesIdentical(left.value, right.value);
      if same != Some(true) {
        excused := same.None? || ragged;
        if !excused {
          assert !same.value;
          assert !Mirrored(env, src, dst, s, plans[i].version);
        }
        return false, excused;
      }
      ok, excused := ValidateArtifacts(env, src, s, plans[i].version);
      if !ok {
        return;
      }
      ok, excused := ValidateArtifacts(env, dst, s, plans[i].version);
      if !ok {
        return;
      }
    }
    ok := true;
  }

  /** Copy the manifest if it is missing or different. */
  method CopyManifest(env: Env, src: Store, replica: Replica, s: string, ghost i: nat, plan: Plan, c: PairCounters)
    returns (r: Option<PairCounters>, ioFailed: bool)
    requires replica.Valid(env, src) && c == Tally(replica.log)
    requires Turn(env, src, replica.store, s, i) && plan.version == Order(env, src, s)[i]
    requires ManifestAt(src, s, plan.version) == Some(plan.raw)
    modifies replica
    ensures replica.Valid(env, src) && Kept(env, src, old(replica.store), replica.store)
    ensures Copies(s, old(replica.store), replica.store, old(replica.log), replica.log)
    ensures replica.store.Source(s).index == old(replica.store.Source(s).index)
    ensures r.Some? ==> r.value == Tally(replica.log) && ManifestAt(replica.store, s, plan.version) == Some(plan.raw)
    ensures r.None? && !ioFailed ==> !Replaceable(replica.store.Source(s).manifests, ManifestName(plan.version))
  {
    var name := ManifestName(plan.version);
    var files := replica.store.Source(s).manifests;
    if name in files {
      if files[name].NotRegular? {
        return None, false;
      }
      var same, _ := FilesIdentical(plan.raw, files[name].content);
      if same.None? {
        return None, true;
      }
      if same.value {
        return Some(c), false;
      }
    }
    var e := PutManifest(s, name, plan.raw);
    assert Carries(src, e, s, plan.version);
    var ok := replica.Perform(env, src, e);
    if !ok {
      return None, true;
    }
    r, ioFailed := Some(Count(c, e)), false;
  }

  /** Copy one blob if it is missing or bad on the replica, and check it once copied. */
  method CopyBlob(env: Env, src: Store, replica: Replica, hash: string, c: PairCounters)
    returns (r: Option<PairCounters>, ioFailed: bool)
    requires replica.Valid(env, src) && c == Tally(replica.log) && GoodBlob(env, src, hash)
    modifies replica
    ensures replica.Valid(env, src) && Kept(env, src, old(replica.store), replica.store)
    ensures replica.store.sources == old(replica.store.sources)
    ensures forall x :: Drops(replica.log, x) == Drops(old(replica.log), x)
    ensures r.Some? ==> r.value == Tally(replica.log) && GoodBlob(env, replica.store, hash)
    ensures r.None? && !ioFailed ==> !Replaceable(replica.store.blobs, hash)
  {
    if hash in replica.store.blobs {
      if replica.store.blobs[hash].NotRegular? {
        return None, false;
      }
      var present, _ := HashBlob(env, replica.store.blobs[hash].content);
      if present == Some(hash) {
        return Some(c), false;
      }
    }
    var e := PutBlob(hash, src.blobs[hash].content);
    var ok := replica.Perform(env, src, e);
    if !ok {
      return None, true;
    }
    var actual;
    actual, ioFailed := HashBlob(env, replica.store.blobs[hash].content);
    r := if actual == Some(hash) then Some(Count(c, e)) else None;
  }

  ghost predicate AllGood(env: Env, st: Store, blobs: seq<string>, n: nat)
    requires n <= |blobs|
  {
    forall k :: 0 <= k < n ==> GoodBlob(env, st, blobs[k])
  }

  lemma StillGood(env: Env, src: Store, a: Store, b: Store, blobs: seq<string>, n: nat)
    requires n < |blobs| && AllGood(env, a, blobs, n) && Kept(env, src, a, b) && GoodBlob(env, b, blobs[n])
    ensures AllGood(env, b, blobs, n + 1)
  {
  }

  /** Copy every planned blob. */
  method CopyBlobs(env: Env, src: Store, replica: Replica, ghost s: string, blobs: seq<string>, c: PairCounters)
    returns (r: Option<PairCounters>, ioFailed: bool)
    requires replica.Valid(env, src) && c == Tally(replica.log)
    requires forall h :: h in blobs ==> GoodBlob(env, src, h)
    modifies replica
    ensures replica.Valid(env, src) && Kept(env, src, old(replica.store), replica.store)
    ensures Copies(s, old(replica.store), replica.store, old(replica.log), replica.log)
    ensures replica.store.sources == old(replica.store.sources)
    ensures r.Some? ==> r.value == Tally(replica.log) && AllGood(env, replica.store, blobs, |blobs|)
    ensures r.None? && !ioFailed ==> exists h :: h in blobs && !Replaceable(replica.store.blobs, h)
  {
    var counters := c;
    for i := 0 to |blobs|
      invariant replica.Valid(env, src) && counters == Tally(replica.log)
      invariant Kept(env, src, old(replica.store), replica.store)
      invariant replica.store.sources == old(replica.store.sources)
      invariant forall x :: Drops(replica.log, x) == Drops(old(replica.log), x)
      invariant AllGood(env, replica.store, blobs, i)
    {
      assert blobs[i] in blobs;
      ghost var before := replica.store;
      var copied;
      copied, ioFailed := CopyBlob(env, src, replica, blobs[i], counters);
      KeptTransitive(env, src, old(replica.store), before, replica.store);
      if copied.None? {
        return None, ioFailed;
      }
      StillGood(env, src, before, replica.store, blobs, i);
      counters := copied.value;
    }
    r, ioFailed := Some(counters), false;
  }

  /** Copy one version: its manifest first, then its blobs. */
  method CopyPlan(env: Env, src: Store, replica: Replica, s: string, ghost i: nat, plan: Plan, c: PairCounters)
    returns (r: Option<PairCounters>, ioFailed: bool)
    requires replica.Valid(env, src) && c == Tally(replica.log)
    requires Turn(env, src, replica.store, s, i) && PlanFor(env, src, s, Order(env, src, s)[i], plan)
    modifies replica
    ensures replica.Valid(env, src) && Kept(env, src, old(replica.store), replica.store)
    ensures Copies(s, old(replica.store), replica.store, old(replica.log), replica.log)
    ensures r.Some? ==> r.value == Tally(replica.log) && Mirrored(env, src, replica.store, s, plan.version)
    ensures r.Some? ==> Reached(env, src, replica.store, s, i + 1)
    ensures r.None? && !ioFailed ==> !Passable(env, src, replica.store, s, plan.version)
  {
    var counters;
    counters, ioFailed := CopyManifest(env, src, replica, s, i, plan, c);
    if counters.None? {
      return None, ioFailed;
    }
    ghost var before, events := replica.store, replica.log;
    r, ioFailed := CopyBlobs(env, src, replica, s, plan.blobs, counters.value);
    KeptTransitive(env, src, old(replica.store), before, replica.store);
    if r.Some? {
      PlanMirrored(env, src, replica.store, s, plan);
      ReachedNext(env, src, old(replica.store), replica.store, s, i);
    }
  }

  lemma ReachedNext(env: Env, src: Store, a: Store, b: Store, s: string, i: nat)
    requires Turn(env, src, a, s, i) && Kept(env, src, a, b) && b.Source(s).index == a.Source(s).index
    requires Mirrored(env, src, b, s, Order(env, src, s)[i])
    ensures Reached(env, src, b, s, i + 1)
  {
    forall j | 0 <= j < i ensures Mirrored(env, src, b, s, Order(env, src, s)[j]) {
      assert Listed(env, src, s, Order(env, src, s)[j]);
    }
  }

  lemma PlanMirrored(env: Env, src: Store, dst: Store, s: string, plan: Plan)
    requires PlanFor(env, src, s, plan.version, plan)
    requires ManifestAt(dst, s, plan.version) == Some(plan.raw)
    requires forall k :: 0 <= k < |plan.blobs| ==> GoodBlob(env, dst, plan.blobs[k])
    ensures Mirrored(env, src, dst, s, plan.version)
  {
  }

  predicate EndsWithJson(name: string) {
    |name| >= 5 && name[|name| - 5..] == JSON
  }

  /** Every manifest file of the source belongs to a version its index lists. */
  predicate OnlyListed(env: Env, src: Store, dst: Store, s: string) {
    var files := dst.Source(s).manifests;
    forall name :: name in files && files[name].Regular? && EndsWithJson(name) ==>
      TrimJson(name) in Order(env, src, s)
  }

  /**
    `mirror_manifest_deletions`: at most `limit` manifests go, none of them listed; when the limit
    was not used up, every manifest file left belongs to a listed version.
   */
  method MirrorDeletions(env: Env, src: Store, replica: Replica, s: string, limit: nat, c: PairCounters)
    returns (r: Option<PairCounters>)
    requires replica.Valid(env, src) && c == Tally(replica.log)
    requires Published(env, src, replica.store, s) && ValidIndex(IndexAt(env, src, s).value)
    modifies replica
    ensures replica.Valid(env, src) && Kept(env, src, old(replica.store), replica.store)
    ensures OnlyFor(s, old(replica.store), replica.store, old(replica.log), replica.log)
    ensures 0 <= Drops(replica.log, s) - Drops(old(replica.log), s) <= limit
    ensures r.Some? ==> r.value == Tally(replica.log)
    ensures r.Some? && Drops(replica.log, s) - Drops(old(replica.log), s) < limit ==>
              OnlyListed(env, src, replica.store, s)
  {
    var keep := IndexAt(env, src, s).value.Ids();
    var counters := c;
    var remaining := limit;
    if remaining == 0 {
      return Some(c);
    }
    var names := replica.store.Source(s).manifests.Keys;
    while names != {}
      invariant replica.Valid(env, src) && counters == Tally(replica.log)
      invariant Kept(env, src, old(replica.store), replica.store)
      invariant Published(env, src, replica.store, s)
      invariant OnlyFor(s, old(replica.store), replica.store, old(replica.log), replica.log)
      invariant Drops(replica.log, s) - Drops(old(replica.log), s) == limit - remaining && 0 <= remaining <= limit
      invariant names <= replica.store.Source(s).manifests.Keys && Swept(replica.store, s, keep, names)
      decreases |names|
    {
      var name :| name in names;
      names := names - {name};
      var slot := replica.store.Source(s).manifests[name];
      if !slot.Regular? || !EndsWithJson(name) || TrimJson(name) in keep {
        continue;
      }
      if remaining == 0 {
        break;
      }
      ghost var before, events := replica.store, replica.log;
      var ok := DropStale(env, src, replica, s, name);
      KeptTransitive(env, src, old(replica.store), before, replica.store);
      if !ok {
        return None;
      }
      SweptOn(before, replica.store, s, keep, names + {name}, name);
      counters := Count(counters, DropManifest(s, name));
      remaining := remaining - 1;
    }
    r := Some(counters);
  }

  /** No manifest file outside `names` belongs to a version that is not kept. */
  ghost predicate Swept(st: Store, s: string, keep: set<string>, names: set<string>) {
    var files := st.Source(s).manifests;
    forall name :: name in files && files[name].Regular? && EndsWithJson(name) && name !in names ==>
      TrimJson(name) in keep
  }

  lemma SweptOn(a: Store, b: Store, s: string, keep: set<string>, names: set<string>, name: string)
    requires Swept(a, s, keep, names) && b.Source(s).manifests == a.Source(s).manifests - {name}
    ensures Swept(b, s, keep, names - {name})
  {
  }

  method DropStale(env: Env, src: Store, replica: Replica, s: string, name: string) returns (ok: bool)
    requires replica.Valid(env, src)
    requires Published(env, src, replica.store, s) && ValidIndex(IndexAt(env, src, s).value)
    requires name in replica.store.Source(s).manifests && replica.store.Source(s).manifests[name].Regular?
    requires TrimJson(name) !in IndexAt(env, src, s).value.Ids()
    modifies replica
    ensures replica.Valid(env, src) && Kept(env, src, old(replica.store), replica.store)
    ensures Published(env, src, replica.store, s)
    ensures OnlyFor(s, old(replica.store), replica.store, old(replica.log), replica.log)
    ensures Drops(replica.log, s) == Drops(old(replica.log), s) + if ok then 1 else 0
    ensures ok ==>
              && replica.store.Source(s).manifests == old(replica.store).Source(s).manifests - {name}
              && Tally(replica.log) == Count(Tally(old(replica.log)), DropManifest(s, name))
  {
    ok := replica.Perform(env, src, DropManifest(s, name));
  }

  lemma KeptTransitive(env: Env, src: Store, a: Store, b: Store, c: Store)
    requires Kept(env, src, a, b) && Kept(env, src, b, c)
    ensures Kept(env, src, a, c)
  {
  }

  /** The scan report is in the way of a copy. */
  predicate ReportBlocked(src: Store, dst: Store, s: string) {
    var report := src.Source(s).report;
    report == Some(NotRegular) || (report.Some? && dst.Source(s).report == Some(NotRegular))
  }

  /** Something in the two stores keeps a source with an index from being replicated. */
  ghost predicate Blocked(env: Env, src: Store, dst: Store, s: string) {
    && src.Source(s).index.Some?
    && (|| !Enters(env, src, dst, s) || ReportBlocked(src, dst, s)
        || exists v :: v in Order(env, src, s) && !Passable(env, src, dst, s, v))
  }

  /** The copy phase for one source: every planned version, then the scan report if there is one. */
  method CopyVersions(env: Env, src: Store, replica: Replica, s: string, plans: seq<Plan>, c: PairCounters)
    returns (r: Option<PairCounters>, ioFailed: bool)
    requires replica.Valid(env, src) && c == Tally(replica.log)
    requires Enters(env, src, replica.store, s) && |plans| == |Order(env, src, s)|
    requires forall i :: 0 <= i < |plans| ==> PlanFor(env, src, s, Order(env, src, s)[i], plans[i])
    modifies replica
    ensures replica.Valid(env, src) && Kept(env, src, old(replica.store), replica.store)
    ensures Copies(s, old(replica.store), replica.store, old(replica.log), replica.log)
    ensures r.Some? ==> r.value == Tally(replica.log) && Reached(env, src, replica.store, s, |plans|)
    ensures r.None? && !ioFailed ==> Blocked(env, src, replica.store, s)
  {
    var counters := c;
    for i := 0 to |plans|
      invariant replica.Valid(env, src) && counters == Tally(replica.log)
      invariant Kept(env, src, old(replica.store), replica.store)
      invariant Copies(s, old(replica.store), replica.store, old(replica.log), replica.log)
      invariant Reached(env, src, replica.store, s, i)
    {
      ghost var before := replica.store;
      var copied;
      copied, ioFailed := CopyPlan(env, src, replica, s, i, plans[i], counters);
      KeptTransitive(env, src, old(replica.store), before, replica.store);
      if copied.None? {
        return None, ioFailed;
      }
      counters := copied.value;
    }
    ghost var before := replica.store;
    r := CopyReport(env, src, replica, s, counters);
    ioFailed := false;
    KeptTransitive(env, src, old(replica.store), before, replica.store);
    if r.Some? {
      StillReached(env, src, before, replica.store, s, |plans|);
    }
  }

  lemma StillReached(env: Env, src: Store, a: Store, b: Store, s: string, i: nat)
    requires Reached(env, src, a, s, i) && Kept(env, src, a, b) && b.Source(s).index == a.Source(s).index
    ensures Reached(env, src, b, s, i)
  {
    forall j | 0 <= j < i ensures Mirrored(env, src, b, s, Order(env, src, s)[j]) {
      assert Listed(env, src, s, Order(env, src, s)[j]);
    }
  }

  /** The scan report is copied if there is one; failing to write it is no failure. */
  method CopyReport(env: Env, src: Store, replica: Replica, s: string, c: PairCounters)
    returns (r: Option<PairCounters>)
    requires replica.Valid(env, src) && c == Tally(replica.log)
    modifies replica
    ensures replica.Valid(env, src) && Kept(env, src, old(replica.store), replica.store)
    ensures Copies(s, old(replica.store), replica.store, old(replica.log), replica.log)
    ensures replica.store.Source(s).index == old(replica.store.Source(s).index)
    ensures r.Some? ==> r.value == Tally(replica.log)
    ensures r.None? <==> ReportBlocked(src, old(replica.store), s)
    ensures r.None? ==> replica.store == old(replica.store)
    ensures r.Some? && src.Source(s).report.Some? ==>
              replica.store.Source(s).report == src.Source(s).report || replica.failed
    ensures replica.store.Source(s).report in {old(replica.store.Source(s).report), src.Source(s).report}
  {
    var report := src.Source(s).report;
    if report.None? {
      return Some(c);
    }
    if report.value.NotRegular? || replica.store.Source(s).report == Some(NotRegular) {
      return None;
    }
    var e := PutReport(s, report.value.content);
    var ok := replica.Perform(env, src, e);
    r := Some(if ok then Count(c, e) else c);
  }

  datatype PairConfig = PairConfig(mirrorManifests: bool, maxManifestDeletes: nat)

  /** How many manifests of a source a run may delete: none unless deletions are mirrored. */
  function MaxDrops(cfg: PairConfig): nat {
    if cfg.mirrorManifests then cfg.maxManifestDeletes else 0
  }

  /** The re-check, the publication of the index and the optional clean-up. */
  method PublishSource(env: Env, cfg: PairConfig, src: Store, replica: Replica, s: string, rawIndex: bytes,
                       plans: seq<Plan>, c: PairCounters) returns (r: Option<PairCounters>, ioFailed: bool)
    requires replica.Valid(env, src) && c == Tally(replica.log)
    requires src.Source(s).index == Some(Regular(rawIndex))
    requires Reached(env, src, replica.store, s, |Order(env, src, s)|) && |plans| == |Order(env, src, s)|
    requires forall i :: 0 <= i < |plans| ==> plans[i].version == Order(env, src, s)[i]
    modifies replica
    ensures replica.Valid(env, src) && Kept(env, src, old(replica.store), replica.store)
    ensures OnlyFor(s, old(replica.store), replica.store, old(replica.log), replica.log)
    ensures !cfg.mirrorManifests ==> Drops(replica.log, s) == Drops(old(replica.log), s)
    ensures cfg.mirrorManifests ==> 0 <= Drops(replica.log, s) - Drops(old(replica.log), s) <= cfg.maxManifestDeletes
    ensures r.Some? ==> r.value == Tally(replica.log) && Published(env, src, replica.store, s)
    ensures r.Some? && cfg.mirrorManifests &&
            Drops(replica.log, s) - Drops(old(replica.log), s) < cfg.maxManifestDeletes ==>
              OnlyListed(env, src, replica.store, s)
    ensures r.None? ==> ioFailed
  {
    var ok;
    ok, ioFailed := ValidatePlans(env, src, replica.store, s, plans);
    if !ok {
      return None, ioFailed;
    }
    var e := PutIndex(s, rawIndex);
    AllMirrored(env, src, replica.store, s, plans);
    ok := replica.Perform(env, src, e);
    if !ok {
      return None, true;
    }
    PublishedByIndex(env, src, old(replica.store), e);
    var counters := Count(c, e);
    r, ioFailed := Some(counters), false;
    if cfg.mirrorManifests {
      ghost var before := replica.store;
      r := MirrorDeletions(env, src, replica, s, cfg.maxManifestDeletes, counters);
      ioFailed := r.None?;
      KeptTransitive(env, src, old(replica.store), before, replica.store);
    }
  }

  lemma AllMirrored(env: Env, src: Store, dst: Store, s: string, plans: seq<Plan>)
    requires Enters(env, src, dst, s) && |plans| == |Order(env, src, s)|
    requires forall i :: 0 <= i < |plans| ==> plans[i].version == Order(env, src, s)[i]
    requires forall i :: 0 <= i < |plans| ==> Mirrored(env, src, dst, s, plans[i].version)
    ensures forall v :: v in IndexAt(env, src, s).value.Ids() ==> Mirrored(env, src, dst, s, v)
  {
    forall v | v in IndexAt(env, src, s).value.Ids() ensures Mirrored(env, src, dst, s, v) {
      assert Listed(env, src, s, v);
      var i :| 0 <= i < |Order(env, src, s)| && Order(env, src, s)[i] == v;
      assert plans[i].version == v;
    }
  }

  lemma PublishedByIndex(env: Env, src: Store, st: Store, e: Event)
    requires Legal(env, src, st, e) && e.PutIndex?
    ensures Published(env, src, Apply(st, e), e.source)
  {
  }

  /** What one turn of the source loop may do to its source, and leaves if it succeeds. */
  ghost predicate Handled(env: Env, cfg: PairConfig, src: Store, dst: Store, s: string, drops: nat) {
    && (src.Source(s).index.Some? ==> Published(env, src, dst, s))
    && (src.Source(s).index.Some? && cfg.mirrorManifests && drops < cfg.maxManifestDeletes ==>
          OnlyListed(env, src, dst, s))
  }

  /** One turn of the source loop of `replicate_one_pair`. */
  method ReplicateSource(env: Env, cfg: PairConfig, src: Store, replica: Replica, s: string, c: PairCounters)
    returns (r: Option<PairCounters>, ioFailed: bool)
    requires replica.Valid(env, src) && c == Tally(replica.log) && Drops(replica.log, s) == 0
    modifies replica
    ensures replica.Valid(env, src) && Kept(env, src, old(replica.store), replica.store)
    ensures OnlyFor(s, old(replica.store), replica.store, old(replica.log), replica.log)
    ensures Drops(replica.log, s) <= MaxDrops(cfg)
    ensures r.Some? ==> r.value == Tally(replica.log)
    ensures r.Some? ==> Handled(env, cfg, src, replica.store, s, Drops(replica.log, s))
    ensures r.None? && !ioFailed ==> Blocked(env, src, replica.store, s)
  {
    ioFailed := false;
    var slot := src.Source(s).index;
    if slot.None? {
      return Some(c), false;
    }
    if slot.value.NotRegular? {
      return None, false;
    }
    var parsed := env.parseIndex(slot.value.content);
    if parsed.None? || !ValidIndex(parsed.value) {
      return None, false;
    }
    var index := parsed.value;
    var ok := replica.Perform(env, src, MakeSource(s));
    if !ok {
      return None, true;
    }
    ok := IndexUsable(env, replica.store, s);
    if !ok {
      return None, false;
    }
    var plans;
    plans, ioFailed := BuildPlans(env, src, s, index);
    if plans.None? {
      if !ioFailed {
        IncompleteBlocks(env, src, replica.store, s, index);
      }
      return None, ioFailed;
    }
    PlansCover(env, src, s, index, plans.value);
    ghost var before := replica.store;
    var copied;
    copied, ioFailed := CopyVersions(env, src, replica, s, plans.value, c);
    KeptTransitive(env, src, old(replica.store), before, replica.store);
    if copied.None? {
      return None, ioFailed;
    }
    before := replica.store;
    r, ioFailed := PublishSource(env, cfg, src, replica, s, slot.value.content, plans.value, copied.value);
    KeptTransitive(env, src, old(replica.store), before, replica.store);
  }

  /** The replica's index, if there is one, parses and is valid. */
  method IndexUsable(env: Env, dst: Store, s: string) returns (ok: bool)
    ensures ok <==> (dst.Source(s).index.Some? ==> IndexAt(env, dst, s).Some? && ValidIndex(IndexAt(env, dst, s).value))
  {
    var there := dst.Source(s).index;
    if there.None? {
      return true;
    }
    if there.value.NotRegular? {
      return false;
    }
    var theirs := env.parseIndex(there.value.content);
    ok := theirs.Some? && ValidIndex(theirs.value);
  }

  lemma IncompleteBlocks(env: Env, src: Store, dst: Store, s: string, index: VersionIndex)
    requires IndexAt(env, src, s) == Some(index)
    requires exists i :: 0 <= i < |index.versions| && !Complete(env, src, s, index.versions[i].id)
    ensures Blocked(env, src, dst, s)
  {
    var i :| 0 <= i < |index.versions| && !Complete(env, src, s, index.versions[i].id);
    assert Listed(env, src, s, index.versions[i].id);
  }

  lemma PlansCover(env: Env, src: Store, s: string, index: VersionIndex, plans: seq<Plan>)
    requires IndexAt(env, src, s) == Some(index) && |plans| == |index.versions|
    requires forall i :: 0 <= i < |plans| ==> PlanFor(env, src, s, index.versions[i].id, plans[i])
    ensures |Order(env, src, s)| == |plans|
    ensures forall i :: 0 <= i < |plans| ==> PlanFor(env, src, s, Order(env, src, s)[i], plans[i])
    ensures forall v :: v in Order(env, src, s) ==> Complete(env, src, s, v)
  {
    forall v | v in Order(env, src, s) ensures Complete(env, src, s, v) {
      var i :| 0 <= i < |Order(env, src, s)| && Order(env, src, s)[i] == v;
      assert PlanFor(env, src, s, index.versions[i].id, plans[i]);
    }
  }

  /** The loop over the sources of an available store. */
  method ReplicateSources(env: Env, cfg: PairConfig, src: Store, replica: Replica)
    returns (r: Option<PairCounters>, ioFailed: bool)
    requires replica.Valid(env, src) && replica.log == []
    modifies replica
    ensures replica.Valid(env, src)
    ensures forall s :: Drops(replica.log, s) <= MaxDrops(cfg)
    ensures r.Some? ==> r.value == Tally(replica.log)
    ensures r.Some? ==> forall s :: s in src.sources ==>
              Handled(env, cfg, src, replica.store, s, Drops(replica.log, s))
    ensures r.None? && !ioFailed ==> exists s :: s in src.sources && Blocked(env, src, replica.store, s)
  {
    var counters := ZERO;
    var todo := src.sources.Keys;
    while todo != {}
      invariant replica.Valid(env, src) && counters == Tally(replica.log)
      invariant todo <= src.sources.Keys
      invariant forall s :: s in todo ==> Drops(replica.log, s) == 0
      invariant forall s :: Drops(replica.log, s) <= MaxDrops(cfg)
      invariant forall s :: s in src.sources.Keys - todo ==>
                  Handled(env, cfg, src, replica.store, s, Drops(replica.log, s))
      decreases |todo|
    {
      var s :| s in todo;
      ghost var before, events := replica.store, replica.log;
      var copied;
      copied, ioFailed := ReplicateSource(env, cfg, src, replica, s, counters);
      if copied.None? {
        return None, ioFailed;
      }
      forall x | x in src.sources.Keys - todo
        ensures Handled(env, cfg, src, replica.store, x, Drops(replica.log, x))
      {
        StillHandled(env, cfg, src, before, replica.store, x, Drops(events, x));
      }
      counters := copied.value;
      todo := todo - {s};
    }
    r, ioFailed := Some(counters), false;
  }

  lemma StillHandled(env: Env, cfg: PairConfig, src: Store, a: Store, b: Store, x: string, drops: nat)
    requires Handled(env, cfg, src, a, x, drops) && Kept(env, src, a, b) && b.Source(x) == a.Source(x)
    ensures Handled(env, cfg, src, b, x, drops)
  {
  }

  /**
    `replicate_one_pair`.  If the replica was ready, every prefix of the operations the run
    performed is crash safe, whether the run succeeds or fails.  A successful run publishes every
    source's index with everything it lists mirrored, and reports what it did; manifests go only if
    deletions are mirrored, and within the limit per source.  It fails only on an I/O error, if the
    replica is not there, or if something in the stores is in the way.
   */
  method ReplicateOnePair(env: Env, cfg: PairConfig, available: bool, src: Option<Store>, replica: Replica)
    returns (r: Option<PairCounters>, ioFailed: bool)
    requires src.Some? ==> replica.Valid(env, src.value)
    requires replica.log == []
    modifies replica
    ensures !available ==> r.None? && replica.log == []
    ensures src.None? ==> replica.log == [] && replica.store == old(replica.store) && (available ==> r == Some(ZERO))
    ensures src.Some? ==> replica.Valid(env, src.value)
    ensures src.Some? && Ready(env, src.value, replica.origin) ==>
              CrashSafe(env, src.value, replica.origin, replica.log)
    ensures src.Some? && ReadyExact(env, src.value, replica.origin) ==>
              forall k :: 0 <= k <= |replica.log| ==>
                Survives(env, replica.origin, Run(replica.origin, replica.log[..k]))
    ensures !cfg.mirrorManifests ==> forall k :: 0 <= k < |replica.log| ==> !replica.log[k].DropManifest?
    ensures forall s :: Drops(replica.log, s) <= cfg.maxManifestDeletes
    ensures r.Some? ==> r.value == Tally(replica.log)
    ensures r.Some? && src.Some? ==>
              forall s :: s in src.value.sources && src.value.Source(s).index.Some? ==>
                && Published(env, src.value, replica.store, s)
                && (cfg.mirrorManifests && Drops(replica.log, s) < cfg.maxManifestDeletes ==>
                      OnlyListed(env, src.value, replica.store, s))
    ensures r.None? && available && !ioFailed ==>
              src.Some? && exists s :: s in src.value.sources && Blocked(env, src.value, replica.store, s)
  {
    r, ioFailed := None, false;
    if available {
      if src.None? {
        return Some(ZERO), false;
      }
      r, ioFailed := ReplicateSources(env, cfg, src.value, replica);
      if !cfg.mirrorManifests {
        NoDrops(replica.log);
      }
    }
    if src.Some? {
      SafeAllAlong(env, src.value, replica.origin, replica.log);
    }
  }

  lemma {:induction false} NoDrops(log: seq<Event>)
    requires forall s :: Drops(log, s) == 0
    ensures forall k :: 0 <= k < |log| ==> !log[k].DropManifest?
  {
    if log != [] {
      var n := |log| - 1;
      assert log[n].DropManifest? ==> Drops(log, log[n].source) > 0;
      forall s ensures Drops(log[..n], s) == 0 {
        assert Drops(log, s) == 0;
      }
      NoDrops(log[..n]);
      assert forall k :: 0 <= k < n ==> log[..n][k] == log[k];
    }
  }

  lemma SafeAllAlong(env: Env, src: Store, origin: Store, log: seq<Event>)
    requires LegalLog(env, src, origin, log)
    ensures Ready(env, src, origin) ==> CrashSafe(env, src, origin, log)
    ensures ReadyExact(env, src, origin) ==>
              forall k :: 0 <= k <= |log| ==> Survives(env, origin, Run(origin, log[..k]))
  {
    if Ready(env, src, origin) {
      LegalRunsAreCrashSafe(env, src, origin, log);
    }
    if ReadyExact(env, src, origin) {
      forall k | 0 <= k <= |log| ensures Survives(env, origin, Run(origin, log[..k])) {
        MidwayThroughout(env, src, origin, log, k);
      }
    }
  }
}
