/** Version indexes and manifests, and the checks every reader of a store applies to them. */
module Model {
  import opened Common

  datatype VersionInfo = VersionInfo(id: string, createdAtUnix: int)

  datatype VersionIndex = VersionIndex(
    sourcePath: string,
    versions: seq<VersionInfo>,
    safetyPinned: Option<string>,
    safetyPending: Option<string>)
  {
    /** The identifiers the index lists. */
    function Ids(): set<string> {
      set i | 0 <= i < |versions| :: versions[i].id
    }
  }

  datatype EntryKind = FileEntry | DirEntry

  datatype ManifestEntry = ManifestEntry(
    kind: EntryKind,
    relPath: string,
    len: nat,
    mtimeUnix: int,
    mtimeNanos: nat,
    sha256: Option<string>)

  /** One key and value of the manifest's ordered entry map. */
  datatype KeyedEntry = KeyedEntry(key: string, entry: ManifestEntry)

  /** Entries are held in the iteration order of the map. */
  datatype Manifest = Manifest(sourcePath: string, entries: seq<KeyedEntry>)

  predicate IsAsciiAlnum(c: char) {
    '0' <= c <= '9' || 'a' <= c <= 'z' || 'A' <= c <= 'Z'
  }

  /** `validate_version_id`. */
  predicate ValidVersionId(id: string) {
    && 0 < |id| <= 255
    && forall i :: 0 <= i < |id| ==> IsAsciiAlnum(id[i]) || id[i] == '-' || id[i] == '_'
  }

  /** `validate_version_index`. */
  predicate ValidIndex(index: VersionIndex) {
    && (forall i :: 0 <= i < |index.versions| ==> ValidVersionId(index.versions[i].id))
    && (index.safetyPinned.Some? ==> ValidVersionId(index.safetyPinned.value))
    && (index.safetyPending.Some? ==> ValidVersionId(index.safetyPending.value))
  }

  /** A lower-case hexadecimal SHA-256. */
  predicate ValidHash(hash: string) {
    && |hash| == 64
    && forall i :: 0 <= i < 64 ==> '0' <= hash[i] <= '9' || 'a' <= hash[i] <= 'f'
  }

  predicate IsHexDigit(c: char) {
    '0' <= c <= '9' || 'a' <= c <= 'f'
  }

  function HexDigit(n: nat): (c: char)
    requires n < 16
    ensures IsHexDigit(c)
  {
    "0123456789abcdef"[n]
  }

  function DigitValue(c: char): (n: nat)
    requires IsHexDigit(c)
    ensures n < 16
  {
    if c <= '9' then c as int - '0' as int else c as int - 'a' as int + 10
  }

  /** Two digits per byte. */
  function Hex(b: bytes): string {
    if b == [] then "" else [HexDigit(b[0] / 16), HexDigit(b[0] % 16)] + Hex(b[1..])
  }

  lemma DigitRoundTrip(c: char)
    requires IsHexDigit(c)
    ensures HexDigit(DigitValue(c)) == c
  {
    var d := "0123456789abcdef";
    assert d[0] == '0' && d[1] == '1' && d[2] == '2' && d[3] == '3' && d[4] == '4' && d[5] == '5' && d[6] == '6';
    assert d[7] == '7' && d[8] == '8' && d[9] == '9' && d[10] == 'a' && d[11] == 'b' && d[12] == 'c' && d[13] == 'd';
    assert d[14] == 'e' && d[15] == 'f';
  }

  lemma {:induction false} HexShape(b: bytes)
    ensures |Hex(b)| == 2 * |b| && forall i :: 0 <= i < |Hex(b)| ==> IsHexDigit(Hex(b)[i])
  {
    if b != [] {
      HexShape(b[1..]);
    }
  }

  lemma {:induction false} FromHex(h: string, n: nat) returns (b: bytes)
    requires |h| == 2 * n && forall i :: 0 <= i < |h| ==> IsHexDigit(h[i])
    ensures |b| == n && Hex(b) == h
  {
    b := [];
    if n > 0 {
      var rest := FromHex(h[2..], n - 1);
      DigitRoundTrip(h[0]);
      DigitRoundTrip(h[1]);
      var first := DigitValue(h[0]) * 16 + DigitValue(h[1]);
      assert first / 16 == DigitValue(h[0]) && first % 16 == DigitValue(h[1]);
      b := [first] + rest;
      assert b[1..] == rest && h == [h[0], h[1]] + h[2..];
    }
  }

  /** A valid hash is what 32 bytes look like in hexadecimal. */
  lemma ValidHashIff(h: string)
    ensures ValidHash(h) <==> exists b: bytes :: |b| == 32 && Hex(b) == h
  {
    if ValidHash(h) {
      var b := FromHex(h, 32);
    }
    if b: bytes :| |b| == 32 && Hex(b) == h {
      HexShape(b);
    }
  }

  /** The entry names a blob: a file entry with a recorded hash. */
  predicate NamesBlob(entry: ManifestEntry) {
    entry.kind.FileEntry? && entry.sha256.Some?
  }

  /** The blobs a manifest refers to. */
  function BlobsOf(m: Manifest): set<string> {
    set i | 0 <= i < |m.entries| && NamesBlob(m.entries[i].entry) :: m.entries[i].entry.sha256.value
  }
}
