/**
  Encoding and decoding as the program does it: loops over streams that may return fewer bytes
  than asked for and may fail at any call.  Every method is tied to the format of `Blobs`.
 */
module BlobStreams {
  import opened Common
  import opened Blobs

  /** A byte source.  `failed` is set once a read reports an error or a timeout. */
  class Reader {
    const data: bytes
    var pos: nat
    var failed: bool

    constructor (data: bytes)
      ensures this.data == data && pos == 0 && !failed && Valid()
    {
      this.data, pos, failed := data, 0, false;
    }

    ghost predicate Valid()
      reads this
    {
      pos <= |data|
    }

    ghost function Unread(): bytes
      requires Valid()
      reads this
    {
      data[pos..]
    }

    /** Any positive number of bytes up to the space offered; zero only at the end or with no space. */
    method Read(buf: array<byte>, from: nat) returns (n: Option<nat>)
      requires Valid() && from <= buf.Length
      modifies this, buf
      ensures Valid()
      ensures n.None? ==> failed && pos == old(pos)
      ensures n.Some? ==>
                && failed == old(failed)
                && from + n.value <= buf.Length
                && n.value <= |old(Unread())|
                && pos == old(pos) + n.value
                && buf[from..from + n.value] == old(Unread())[..n.value]
                && (n.value == 0 <==> from == buf.Length || old(Unread()) == [])
      ensures buf[..from] == old(buf[..from])
    {
      var broken: bool := *;
      if broken {
        failed := true;
        return None;
      }
      var most := Min(buf.Length - from, |data| - pos);
      if most == 0 {
        return Some(0);
      }
      var k: nat :| 1 <= k <= most;
      forall i | 0 <= i < k {
        buf[from + i] := data[pos + i];
      }
      pos := pos + k;
      n := Some(k);
    }
  }

  /** A byte sink.  A failed write may leave part of its bytes behind. */
  class Writer {
    var written: bytes
    var failed: bool

    constructor ()
      ensures written == [] && !failed
    {
      written, failed := [], false;
    }

    method WriteAll(b: bytes) returns (ok: bool)
      modifies this
      ensures ok ==> written == old(written) + b && failed == old(failed)
      ensures !ok ==> failed && old(written) <= written
    {
      var broken: bool := *;
      if broken {
        var k: nat :| k <= |b|;
        written, failed := written + b[..k], true;
        return false;
      }
      written := written + b;
      ok := true;
    }
  }

  class Hasher {
    var fed: bytes

    constructor ()
      ensures fed == []
    {
      fed := [];
    }

    method Update(b: bytes)
      modifies this
      ensures fed == old(fed) + b
    {
      fed := fed + b;
    }
  }

  // ----- Reading -----

  /** `read_exact_timeout`. */
  method ReadExact(input: Reader, buf: array<byte>) returns (ok: bool)
    requires input.Valid()
    modifies input, buf
    ensures input.Valid()
    ensures ok ==>
              && input.failed == old(input.failed)
              && buf.Length <= |old(input.Unread())|
              && buf[..] == old(input.Unread())[..buf.Length]
              && input.Unread() == old(input.Unread())[buf.Length..]
    ensures !ok ==> input.failed || |old(input.Unread())| < buf.Length
  {
    ghost var start := input.Unread();
    var filled := 0;
    while filled < buf.Length
      invariant filled <= buf.Length && filled <= |start|
      invariant input.Valid() && input.failed == old(input.failed)
      invariant input.Unread() == start[filled..]
      invariant buf[..filled] == start[..filled]
    {
      var n := input.Read(buf, filled);
      if n.None? || n.value == 0 {
        return false;
      }
      assert buf[..filled + n.value] == buf[..filled] + buf[filled..filled + n.value];
      assert start[..filled + n.value] == start[..filled] + start[filled..][..n.value];
      filled := filled + n.value;
    }
    assert buf[..filled] == buf[..];
    ok := true;
  }

  /** `read_chunk`: one read into the whole buffer. */
  method ReadChunk(input: Reader, buf: array<byte>) returns (n: Option<nat>)
    requires input.Valid() && buf.Length > 0
    modifies input, buf
    ensures input.Valid()
    ensures n.None? ==> input.failed
    ensures n.Some? ==>
              && input.failed == old(input.failed)
              && n.value <= buf.Length
              && buf[..n.value] + input.Unread() == old(input.Unread())
              && |input.Unread()| == |old(input.Unread())| - n.value
              && (n.value == 0 <==> old(input.Unread()) == [])
  {
    n := input.Read(buf, 0);
    if n.Some? {
      assert buf[..n.value] == buf[0..n.value];
    }
  }

  /** `read_framed_chunk`. */
  method ReadFramedChunk(input: Reader) returns (r: Option<(bytes, bool)>)
    requires input.Valid()
    modifies input
    ensures input.Valid()
    ensures r.Some? ==>
              && input.failed == old(input.failed)
              && ParseFrame(old(input.Unread())) == Some(Frame(r.value.0, r.value.1, input.Unread()))
    ensures r.None? ==> input.failed || ParseFrame(old(input.Unread())).None?
  {
    ghost var start := input.Unread();
    var lenBytes := new byte[4];
    var ok := ReadExact(input, lenBytes);
    if !ok {
      return None;
    }
    var raw := FromBE(lenBytes[..]);
    var isLast := raw >= LAST_FLAG;
    var len := raw % LAST_FLAG;
    var buf := new byte[len];
    ok := ReadExact(input, buf);
    if !ok {
      return None;
    }
    assert buf[..] == start[4..4 + len];
    assert input.Unread() == start[4 + len..];
    r := Some((buf[..], isLast));
  }

  datatype ProbedMagic = EncryptedBlob | CompressedBlob | PlainBlob

  /** `probe_magic_prefix`: short files and files without a magic are plain, and keep their prefix. */
  method ProbeMagicPrefix(input: Reader) returns (r: Option<(ProbedMagic, bytes)>)
    requires input.Valid()
    modifies input
    ensures input.Valid()
    ensures r.None? ==> input.failed
    ensures r.Some? ==>
              && input.failed == old(input.failed)
              && (r.value.0.EncryptedBlob? <==> HasMagic(old(input.Unread()), ENC_MAGIC))
              && (r.value.0.CompressedBlob? <==> HasMagic(old(input.Unread()), COMP_MAGIC))
              && (r.value.0.PlainBlob? ==> r.value.1 + input.Unread() == old(input.Unread()))
              && (!r.value.0.PlainBlob? ==> input.Unread() == old(input.Unread())[8..])
  {
    ghost var start := input.Unread();
    var magic := new byte[8];
    var filled := 0;
    while filled < 8
      invariant filled <= 8 && filled <= |start|
      invariant input.Valid() && input.failed == old(input.failed)
      invariant input.Unread() == start[filled..]
      invariant magic[..filled] == start[..filled]
    {
      var n := input.Read(magic, filled);
      if n.None? {
        return None;
      }
      if n.value == 0 {
        break;
      }
      assert magic[..filled + n.value] == magic[..filled] + magic[filled..filled + n.value];
      assert start[..filled + n.value] == start[..filled] + start[filled..][..n.value];
      filled := filled + n.value;
    }
    if filled < 8 {
      return Some((PlainBlob, magic[..filled]));
    }
    assert magic[..] == start[..8];
    assert ENC_MAGIC[5] != COMP_MAGIC[5];
    if magic[..] == ENC_MAGIC {
      return Some((EncryptedBlob, []));
    }
    if magic[..] == COMP_MAGIC {
      return Some((CompressedBlob, []));
    }
    r := Some((PlainBlob, magic[..]));
  }

  /** `read_encrypted_header`. */
  method ReadEncryptedHeader(key: bytes, input: Reader) returns (r: Option<Framing>)
    requires input.Valid()
    modifies input
    ensures input.Valid()
    ensures r.Some? ==>
              && input.failed == old(input.failed)
              && ParseEncryptedHeader(key, old(input.Unread())) == Some((r.value, input.Unread()))
    ensures r.None? ==> input.failed || ParseEncryptedHeader(key, old(input.Unread())).None?
  {
    ghost var start := input.Unread();
    var meta := new byte[2];
    var ok := ReadExact(input, meta);
    if !ok {
      return None;
    }
    assert meta[..][0] == start[0] && meta[..][1] == start[1];
    if meta[0] != ENC_VERSION {
      return None;
    }
    if meta[1] != ALG_STREAM && meta[1] != ALG_STREAM_ZSTD {
      return None;
    }
    var nonce := new byte[NONCE_LEN];
    ok := ReadExact(input, nonce);
    if !ok {
      return None;
    }
    assert nonce[..] == start[2..2 + NONCE_LEN];
    r := Some(Encrypted(key, nonce[..], meta[1] == ALG_STREAM_ZSTD));
  }

  /** `read_compressed_header`. */
  method ReadCompressedHeader(input: Reader) returns (r: Option<Framing>)
    requires input.Valid()
    modifies input
    ensures input.Valid()
    ensures r.Some? ==>
              && input.failed == old(input.failed)
              && ParseCompressedHeader(old(input.Unread())) == Some((r.value, input.Unread()))
    ensures r.None? ==> input.failed || ParseCompressedHeader(old(input.Unread())).None?
  {
    ghost var start := input.Unread();
    var meta := new byte[2];
    var ok := ReadExact(input, meta);
    if !ok {
      return None;
    }
    assert meta[..][0] == start[0] && meta[..][1] == start[1];
    if meta[0] != COMP_VERSION || meta[1] != COMP_ALG_ZSTD {
      return None;
    }
    r := Some(Compressed);
  }

  // ----- Decoding to a writer -----

  /** `decrypt_stream_to_writer`. */
  method DecryptStreamToWriter(p: Primitives, f: Framing, input: Reader, out: Writer) returns (r: Option<nat>)
    requires input.Valid() && f.Encrypted? && !input.failed && !out.failed
    modifies input, out
    ensures input.Valid()
    ensures input.failed || out.failed ==> r.None?
    ensures !input.failed && !out.failed ==>
              match DecodeFrames(p, f, 0, old(input.Unread()))
              case Bad => r.None?
              case Done(plain, _) => r == Some(Min(|plain|, U64_MAX)) && out.written == old(out.written) + plain
  {
    ghost var start := input.Unread();
    ghost var acc: bytes := [];
    var position := 0;
    var total: nat := 0;
    PrependEmpty(DecodeFrames(p, f, 0, start));
    while true
      invariant input.Valid() && !input.failed && !out.failed
      invariant DecodeFrames(p, f, 0, start) == Prepend(acc, DecodeFrames(p, f, position, input.Unread()))
      invariant out.written == old(out.written) + acc
      invariant total == Min(|acc|, U64_MAX)
      decreases |input.Unread()|
    {
      ghost var here := input.Unread();
      var chunk := ReadFramedChunk(input);
      ghost var rest := input.Unread();
      if chunk.None? {
        return None;
      }
      var (ct, isLast) := chunk.value;
      DecodeStep(p, f, start, acc, position, here, Frame(ct, isLast, rest));
      var decoded := p.open(f.key, f.nonce, position, isLast, ct);
      if decoded.None? {
        return None;
      }
      var pt := decoded.value;
      if f.zstd {
        var inflated := DecompressZstdPayload(p, decoded.value);
        if inflated.None? {
          return None;
        }
        pt := inflated.value;
      }
      var ok := out.WriteAll(pt);
      if !ok {
        return None;
      }
      Assoc(old(out.written), acc, pt);
      total := SaturatingAdd(total, |pt|);
      acc := acc + pt;
      if isLast {
        return Some(total);
      }
      position := position + 1;
    }
  }

  /** `decompress_stream_to_writer`. */
  method DecompressStreamToWriter(p: Primitives, input: Reader, out: Writer) returns (r: Option<nat>)
    requires input.Valid() && !input.failed && !out.failed
    modifies input, out
    ensures input.Valid()
    ensures input.failed || out.failed ==> r.None?
    ensures !input.failed && !out.failed ==>
              match DecodeFrames(p, Compressed, 0, old(input.Unread()))
              case Bad => r.None?
              case Done(plain, _) => r == Some(Min(|plain|, U64_MAX)) && out.written == old(out.written) + plain
  {
    ghost var start := input.Unread();
    ghost var acc: bytes := [];
    ghost var position := 0;
    var total: nat := 0;
    PrependEmpty(DecodeFrames(p, Compressed, 0, start));
    while true
      invariant input.Valid() && !input.failed && !out.failed
      invariant DecodeFrames(p, Compressed, 0, start) ==
                  Prepend(acc, DecodeFrames(p, Compressed, position, input.Unread()))
      invariant out.written == old(out.written) + acc
      invariant total == Min(|acc|, U64_MAX)
      decreases |input.Unread()|
    {
      ghost var here := input.Unread();
      var chunk := ReadFramedChunk(input);
      ghost var rest := input.Unread();
      if chunk.None? {
        return None;
      }
      var (payload, isLast) := chunk.value;
      var pt := DecompressZstdPayload(p, payload);
      DecodeStep(p, Compressed, start, acc, position, here, Frame(payload, isLast, rest));
      if pt.None? {
        return None;
      }
      var ok := out.WriteAll(pt.value);
      if !ok {
        return None;
      }
      Assoc(old(out.written), acc, pt.value);
      total := SaturatingAdd(total, |pt.value|);
      acc := acc + pt.value;
      if isLast {
        return Some(total);
      }
      position := position + 1;
    }
  }

  const COPY_BUFFER_BYTES := 64 * 1024

  /** `copy_plain_stream`. */
  method CopyPlainStream(input: Reader, out: Writer) returns (r: Option<nat>)
    requires input.Valid() && !input.failed && !out.failed
    modifies input, out
    ensures input.Valid()
    ensures input.failed || out.failed <==> r.None?
    ensures r.Some? ==>
              && r.value == Min(|old(input.Unread())|, U64_MAX)
              && out.written == old(out.written) + old(input.Unread())
  {
    ghost var start := input.Unread();
    var buf := new byte[COPY_BUFFER_BYTES];
    var total: nat := 0;
    while true
      invariant input.Valid() && !input.failed && !out.failed
      invariant out.written + input.Unread() == old(out.written) + start
      invariant |input.Unread()| <= |start| && total == Min(|start| - |input.Unread()|, U64_MAX)
      decreases |input.Unread()|
    {
      ghost var before := out.written;
      var n := ReadChunk(input, buf);
      if n.None? {
        return None;
      }
      if n.value == 0 {
        assert out.written + [] == out.written;
        return Some(total);
      }
      var ok := out.WriteAll(buf[..n.value]);
      if !ok {
        return None;
      }
      Assoc(before, buf[..n.value], input.Unread());
      total := SaturatingAdd(total, n.value);
    }
  }

  /** `copy_blob_plaintext_to_writer`. */
  method CopyBlobPlaintext(p: Primitives, cipher: Option<bytes>, blob: Reader, out: Writer) returns (r: Option<nat>)
    requires blob.Valid() && !blob.failed && !out.failed
    modifies blob, out
    ensures blob.Valid()
    ensures blob.failed || out.failed ==> r.None?
    ensures !blob.failed && !out.failed ==>
              match DecodeBlob(p, cipher, old(blob.Unread()))
              case None => r.None?
              case Some(plain) => r == Some(Min(|plain|, U64_MAX)) && out.written == old(out.written) + plain
  {
    ghost var start := blob.Unread();
    var probed := ProbeMagicPrefix(blob);
    if probed.None? {
      return None;
    }
    var (kind, prefix) := probed.value;
    ProbeKinds(start);
    match kind {
    case EncryptedBlob =>
      if cipher.None? {
        return None;
      }
      var header := ReadEncryptedHeader(cipher.value, blob);
      if header.None? {
        return None;
      }
      r := DecryptStreamToWriter(p, header.value, blob, out);
    case CompressedBlob =>
      var header := ReadCompressedHeader(blob);
      if header.None? {
        return None;
      }
      r := DecompressStreamToWriter(p, blob, out);
    case PlainBlob =>
      if prefix != [] {
        var ok := out.WriteAll(prefix);
        if !ok {
          return None;
        }
      }
      r := CopyPlainStream(blob, out);
      if r.Some? {
        r := Some(SaturatingAdd(r.value, |prefix|));
      }
    }
  }

  lemma ProbeKinds(s: bytes)
    ensures !(HasMagic(s, ENC_MAGIC) && HasMagic(s, COMP_MAGIC))
  {
    assert ENC_MAGIC[5] != COMP_MAGIC[5];
  }

  // ----- Decoding to a hasher -----

  /** `decrypt_stream_to_hasher`. */
  method DecryptStreamToHasher(p: Primitives, f: Framing, input: Reader, hasher: Hasher) returns (ok: bool)
    requires input.Valid() && f.Encrypted? && !input.failed
    modifies input, hasher
    ensures input.Valid()
    ensures input.failed ==> !ok
    ensures !input.failed ==>
              match DecodeFrames(p, f, 0, old(input.Unread()))
              case Bad => !ok
              case Done(plain, _) => ok && hasher.fed == old(hasher.fed) + plain
  {
    ghost var start := input.Unread();
    ghost var acc: bytes := [];
    var position := 0;
    PrependEmpty(DecodeFrames(p, f, 0, start));
    while true
      invariant input.Valid() && !input.failed
      invariant DecodeFrames(p, f, 0, start) == Prepend(acc, DecodeFrames(p, f, position, input.Unread()))
      invariant hasher.fed == old(hasher.fed) + acc
      decreases |input.Unread()|
    {
      ghost var here := input.Unread();
      var chunk := ReadFramedChunk(input);
      ghost var rest := input.Unread();
      if chunk.None? {
        return false;
      }
      var (ct, isLast) := chunk.value;
      DecodeStep(p, f, start, acc, position, here, Frame(ct, isLast, rest));
      var decoded := p.open(f.key, f.nonce, position, isLast, ct);
      if decoded.None? {
        return false;
      }
      ghost var pt := decoded.value;
      if f.zstd {
        var inflated := DecompressZstdPayload(p, decoded.value);
        if inflated.None? {
          return false;
        }
        pt := inflated.value;
        hasher.Update(inflated.value);
      } else {
        hasher.Update(decoded.value);
      }
      Assoc(old(hasher.fed), acc, pt);
      acc := acc + pt;
      if isLast {
        return true;
      }
      position := position + 1;
    }
  }

  /** `decompress_stream_to_hasher`. */
  method DecompressStreamToHasher(p: Primitives, input: Reader, hasher: Hasher) returns (ok: bool)
    requires input.Valid() && !input.failed
    modifies input, hasher
    ensures input.Valid()
    ensures input.failed ==> !ok
    ensures !input.failed ==>
              match DecodeFrames(p, Compressed, 0, old(input.Unread()))
              case Bad => !ok
              case Done(plain, _) => ok && hasher.fed == old(hasher.fed) + plain
  {
    ghost var start := input.Unread();
    ghost var acc: bytes := [];
    ghost var position := 0;
    PrependEmpty(DecodeFrames(p, Compressed, 0, start));
    while true
      invariant input.Valid() && !input.failed
      invariant DecodeFrames(p, Compressed, 0, start) ==
                  Prepend(acc, DecodeFrames(p, Compressed, position, input.Unread()))
      invariant hasher.fed == old(hasher.fed) + acc
      decreases |input.Unread()|
    {
      ghost var here := input.Unread();
      var chunk := ReadFramedChunk(input);
      ghost var rest := input.Unread();
      if chunk.None? {
        return false;
      }
      var (payload, isLast) := chunk.value;
      DecodeStep(p, Compressed, start, acc, position, here, Frame(payload, isLast, rest));
      var pt := DecompressZstdPayload(p, payload);
      if pt.None? {
        return false;
      }
      hasher.Update(pt.value);
      Assoc(old(hasher.fed), acc, pt.value);
      acc := acc + pt.value;
      if isLast {
        return true;
      }
      position := position + 1;
    }
  }

  /** The plain branch of `sha256_plaintext_blob`. */
  method HashPlainStream(input: Reader, hasher: Hasher) returns (ok: bool)
    requires input.Valid() && !input.failed
    modifies input, hasher
    ensures input.Valid()
    ensures input.failed <==> !ok
    ensures ok ==> hasher.fed == old(hasher.fed) + old(input.Unread())
  {
    ghost var start := input.Unread();
    var buf := new byte[COPY_BUFFER_BYTES];
    while true
      invariant input.Valid() && !input.failed
      invariant hasher.fed + input.Unread() == old(hasher.fed) + start
      decreases |input.Unread()|
    {
      ghost var before := hasher.fed;
      var n := ReadChunk(input, buf);
      if n.None? {
        return false;
      }
      if n.value == 0 {
        assert hasher.fed + [] == hasher.fed;
        return true;
      }
      hasher.Update(buf[..n.value]);
      Assoc(before, buf[..n.value], input.Unread());
    }
  }

  /** `sha256_plaintext_blob`. */
  method Sha256PlaintextBlob(p: Primitives, cipher: Option<bytes>, blob: Reader) returns (r: Option<string>)
    requires blob.Valid() && !blob.failed
    modifies blob
    ensures blob.Valid()
    ensures blob.failed ==> r.None?
    ensures !blob.failed ==> r == PlainHash(p, cipher, old(blob.Unread()))
  {
    ghost var start := blob.Unread();
    var hasher := new Hasher();
    var probed := ProbeMagicPrefix(blob);
    if probed.None? {
      return None;
    }
    var (kind, prefix) := probed.value;
    ProbeKinds(start);
    var ok;
    match kind {
    case EncryptedBlob =>
      if cipher.None? {
        return None;
      }
      var header := ReadEncryptedHeader(cipher.value, blob);
      if header.None? {
        return None;
      }
      ok := DecryptStreamToHasher(p, header.value, blob, hasher);
    case CompressedBlob =>
      var header := ReadCompressedHeader(blob);
      if header.None? {
        return None;
      }
      ok := DecompressStreamToHasher(p, blob, hasher);
    case PlainBlob =>
      if prefix != [] {
        hasher.Update(prefix);
        assert hasher.fed == prefix;
      }
      ok := HashPlainStream(blob, hasher);
    }
    if !ok {
      return None;
    }
    if DecodeBlob(p, cipher, start).Some? {
      assert [] + DecodeBlob(p, cipher, start).value == DecodeBlob(p, cipher, start).value;
    }
    r := Some(p.sha256Hex(hasher.fed));
  }

  /** Both read paths over the same stored bytes: they fail together and agree on the content. */
  method CompareDecoders(p: Primitives, cipher: Option<bytes>, stored: bytes)
    returns (copied: Option<bytes>, hash: Option<string>, ioFailed: bool)
    ensures !ioFailed ==> copied == DecodeBlob(p, cipher, stored)
    ensures !ioFailed ==> (copied.Some? <==> hash.Some?)
    ensures !ioFailed && hash.Some? ==> hash.value == p.sha256Hex(copied.value)
  {
    var toCopy := new Reader(stored);
    var toHash := new Reader(stored);
    var out := new Writer();
    var n := CopyBlobPlaintext(p, cipher, toCopy, out);
    hash := Sha256PlaintextBlob(p, cipher, toHash);
    copied := if n.Some? then Some(out.written) else None;
    ioFailed := toCopy.failed || toHash.failed || out.failed;
    assert stored[0..] == stored;
    if DecodeBlob(p, cipher, stored).Some? {
      assert [] + DecodeBlob(p, cipher, stored).value == DecodeBlob(p, cipher, stored).value;
    }
  }

  // ----- Encoding -----

  /** `write_framed_chunk`. */
  method WriteFramedChunk(out: Writer, chunk: bytes, isLast: bool) returns (ok: bool)
    modifies out
    ensures ok ==>
              && out.failed == old(out.failed)
              && FrameBytes(chunk, isLast).Some?
              && out.written == old(out.written) + FrameBytes(chunk, isLast).value
    ensures !ok ==> out.failed || FrameBytes(chunk, isLast).None?
  {
    if |chunk| > 0x7FFF_FFFF {
      return false;
    }
    var len := |chunk|;
    if isLast {
      len := len + LAST_FLAG;
    }
    ok := out.WriteAll(ToBE32(len));
    if !ok {
      return;
    }
    ok := out.WriteAll(chunk);
    Assoc(old(out.written), ToBE32(len), chunk);
  }

  /** A cut of `plain` into chunks no longer than the buffer: one empty chunk for an empty file. */
  ghost predicate ChunksOf(plain: bytes, chunks: seq<bytes>, size: nat) {
    && chunks != []
    && Concat(chunks) == plain
    && (forall i :: 0 <= i < |chunks| ==> |chunks[i]| <= size)
  }

  /** A piece of a plaintext, its position among the others, and whether it is the last one. */
  datatype Chunk = Chunk(position: nat, last: bool, pt: bytes)

  /** The library refuses the chunk, or what it makes of it does not fit into a frame. */
  predicate Refused(p: Primitives, f: Framing, level: int, chunk: Chunk) {
    ChunkFrame(p, f, level, chunk.position, chunk.last, chunk.pt).None?
  }

  /** Compress the chunk first when a level is given, seal it at its stream position, and frame it. */
  method WriteSealedChunk(p: Primitives, f: Framing, out: Writer, zstdLevel: Option<int>, position: nat, isLast: bool,
                          pt: bytes)
    returns (ok: bool)
    requires f.Encrypted? && f.zstd == zstdLevel.Some?
    modifies out
    ensures ok ==>
              var frame := ChunkFrame(p, f, if zstdLevel.Some? then zstdLevel.value else 0, position, isLast, pt);
              frame.Some? && out.written == old(out.written) + frame.value && out.failed == old(out.failed)
    ensures !ok ==>
              out.failed || Refused(p, f, if zstdLevel.Some? then zstdLevel.value else 0, Chunk(position, isLast, pt))
  {
    var payload := pt;
    if zstdLevel.Some? {
      var built := BuildZstdPayload(p, pt, zstdLevel.value);
      if built.None? {
        return false;
      }
      payload := built.value;
    }
    var ct := p.seal(f.key, f.nonce, position, isLast, payload);
    if ct.None? {
      return false;
    }
    ok := WriteFramedChunk(out, ct.value, isLast);
  }

  method WriteCompressedChunk(p: Primitives, out: Writer, level: int, ghost position: nat, isLast: bool, pt: bytes)
    returns (ok: bool)
    modifies out
    ensures ok ==>
              var frame := ChunkFrame(p, Compressed, level, position, isLast, pt);
              frame.Some? && out.written == old(out.written) + frame.value && out.failed == old(out.failed)
    ensures !ok ==> out.failed || Refused(p, Compressed, level, Chunk(position, isLast, pt))
  {
    var payload := BuildZstdPayload(p, pt, level);
    if payload.None? {
      return false;
    }
    ok := WriteFramedChunk(out, payload.value, isLast);
  }

  /**
    `encrypt_file_to_writer_enc_stream`: a chunk is only framed once the read after it shows
    whether it was the last one.
   */
  method EncryptFileToWriter(p: Primitives, file: Reader, out: Writer, chunkBytes: nat,
                             key: bytes, nonce: bytes, zstdLevel: Option<int>)
    returns (r: Option<nat>, ghost chunks: seq<bytes>, ghost bad: Chunk)
    requires file.Valid() && |nonce| == NONCE_LEN
    modifies file, out
    ensures file.Valid()
    ensures r.Some? ==>
              var f := Encrypted(key, nonce, zstdLevel.Some?);
              var level := if zstdLevel.Some? then zstdLevel.value else 0;
              var plain := old(file.Unread());
              && file.failed == old(file.failed) && out.failed == old(out.failed)
              && r.value == Min(|plain|, U64_MAX)
              && ChunksOf(plain, chunks, if chunkBytes == 0 then 1 else chunkBytes)
              && EncodeBlob(p, f, level, chunks).Some?
              && out.written == old(out.written) + EncodeBlob(p, f, level, chunks).value
    ensures r.None? ==>
              || file.failed || out.failed
              || Refused(p, Encrypted(key, nonce, zstdLevel.Some?), if zstdLevel.Some? then zstdLevel.value else 0, bad)
  {
    ghost var plain := file.Unread();
    ghost var before := out.written;
    var f := Encrypted(key, nonce, zstdLevel.Some?);
    var level := if zstdLevel.Some? then zstdLevel.value else 0;
    chunks, bad := [], Chunk(0, true, []);
    var ok := WriteHeader(f, out);
    if !ok {
      return None, chunks, bad;
    }
    var size := if chunkBytes == 0 then 1 else chunkBytes;
    var bufA, bufB := new byte[size], new byte[size];
    ghost var header := out.written;
    EncodingStart(p, f, level, size, plain, before);
    var first := ReadChunk(file, bufA);
    if first.None? {
      return None, chunks, bad;
    }
    var aLen := first.value;
    var total: nat := 0;
    if aLen == 0 {
      ok := WriteSealedChunk(p, f, out, zstdLevel, 0, true, []);
      if !ok {
        return None, chunks, bad;
      }
      EncodingEnd(p, f, level, size, plain, before, [], [], header, 0);
      chunks := [[]];
      return Some(0), chunks, bad;
    }
    var position := 0;
    while true
      invariant file.Valid() && file.failed == old(file.failed) && out.failed == old(out.failed)
      invariant fresh(bufA) && fresh(bufB) && bufA != bufB && bufA.Length == bufB.Length == size
      invariant 0 < aLen <= size && position == |chunks|
      invariant Encoding(p, f, level, size, plain, before, chunks, bufA[..aLen], file.Unread(), out.written, total)
      decreases |file.Unread()|
    {
      var pt := bufA[..aLen];
      ghost var soFar, counted := out.written, total;
      var next := ReadChunk(file, bufB);
      if next.None? {
        return None, chunks, bad;
      }
      var bLen := next.value;
      var isLast := bLen == 0;
      bad := Chunk(|chunks|, isLast, pt);
      total := SaturatingAdd(total, aLen);
      ok := WriteSealedChunk(p, f, out, zstdLevel, position, isLast, pt);
      if !ok {
        return None, chunks, bad;
      }
      if isLast {
        EncodingEnd(p, f, level, size, plain, before, chunks, pt, soFar, counted);
        chunks := chunks + [pt];
        return Some(total), chunks, bad;
      }
      EncodingStep(p, f, level, size, plain, before, chunks, pt, bufB[..bLen], file.Unread(), soFar, counted);
      chunks := chunks + [pt];
      bufA, bufB := bufB, bufA;
      aLen := bLen;
      position := position + 1;
    }
  }

  /** `compress_file_to_writer_zstd_chunked`. */
  method CompressFileToWriter(p: Primitives, file: Reader, out: Writer, chunkBytes: nat, level: int)
    returns (r: Option<nat>, ghost chunks: seq<bytes>, ghost bad: Chunk)
    requires file.Valid()
    modifies file, out
    ensures file.Valid()
    ensures r.Some? ==>
              var plain := old(file.Unread());
              && file.failed == old(file.failed) && out.failed == old(out.failed)
              && r.value == Min(|plain|, U64_MAX)
              && ChunksOf(plain, chunks, if chunkBytes == 0 then 1 else chunkBytes)
              && EncodeBlob(p, Compressed, level, chunks).Some?
              && out.written == old(out.written) + EncodeBlob(p, Compressed, level, chunks).value
    ensures r.None? ==> file.failed || out.failed || Refused(p, Compressed, level, bad)
  {
    ghost var plain := file.Unread();
    ghost var before := out.written;
    chunks, bad := [], Chunk(0, true, []);
    var ok := WriteHeader(Compressed, out);
    if !ok {
      return None, chunks, bad;
    }
    var size := if chunkBytes == 0 then 1 else chunkBytes;
    var bufA, bufB := new byte[size], new byte[size];
    ghost var header := out.written;
    EncodingStart(p, Compressed, level, size, plain, before);
    var first := ReadChunk(file, bufA);
    if first.None? {
      return None, chunks, bad;
    }
    var aLen := first.value;
    var total: nat := 0;
    if aLen == 0 {
      ok := WriteCompressedChunk(p, out, level, 0, true, []);
      if !ok {
        return None, chunks, bad;
      }
      EncodingEnd(p, Compressed, level, size, plain, before, [], [], header, 0);
      chunks := [[]];
      return Some(0), chunks, bad;
    }
    while true
      invariant file.Valid() && file.failed == old(file.failed) && out.failed == old(out.failed)
      invariant fresh(bufA) && fresh(bufB) && bufA != bufB && bufA.Length == bufB.Length == size
      invariant 0 < aLen <= size
      invariant Encoding(p, Compressed, level, size, plain, before, chunks, bufA[..aLen], file.Unread(), out.written,
                  total)
      decreases |file.Unread()|
    {
      var pt := bufA[..aLen];
      ghost var soFar, counted := out.written, total;
      var next := ReadChunk(file, bufB);
      if next.None? {
        return None, chunks, bad;
      }
      var bLen := next.value;
      var isLast := bLen == 0;
      bad := Chunk(|chunks|, isLast, pt);
      total := SaturatingAdd(total, aLen);
      ok := WriteCompressedChunk(p, out, level, |chunks|, isLast, pt);
      if !ok {
        return None, chunks, bad;
      }
      if isLast {
        EncodingEnd(p, Compressed, level, size, plain, before, chunks, pt, soFar, counted);
        chunks := chunks + [pt];
        return Some(total), chunks, bad;
      }
      EncodingStep(p, Compressed, level, size, plain, before, chunks, pt, bufB[..bLen], file.Unread(), soFar, counted);
      chunks := chunks + [pt];
      bufA, bufB := bufB, bufA;
      aLen := bLen;
    }
  }

  method WriteHeader(f: Framing, out: Writer) returns (ok: bool)
    modifies out
    ensures ok ==> out.written == old(out.written) + Header(f) && out.failed == old(out.failed)
    ensures !ok ==> out.failed
  {
    ghost var before := out.written;
    match f {
    case Compressed =>
      ok := out.WriteAll(COMP_MAGIC);
      if ok {
        ok := out.WriteAll([COMP_VERSION, COMP_ALG_ZSTD]);
        Assoc(before, COMP_MAGIC, [COMP_VERSION, COMP_ALG_ZSTD]);
      }
    case Encrypted(_, nonce, zstd) =>
      var meta: bytes := [ENC_VERSION, if zstd then ALG_STREAM_ZSTD else ALG_STREAM];
      ok := out.WriteAll(ENC_MAGIC);
      if ok {
        ok := out.WriteAll(meta);
        if ok {
          ok := out.WriteAll(nonce);
          Assoc(before, ENC_MAGIC, meta);
          Assoc(before, ENC_MAGIC + meta, nonce);
        }
      }
    }
  }

  /** What an encoding loop has done so far: `pending` is read but not framed, `unread` still in the file. */
  ghost predicate Encoding(p: Primitives, f: Framing, level: int, size: nat, plain: bytes, before: bytes,
                           chunks: seq<bytes>, pending: bytes, unread: bytes, written: bytes, total: nat)
  {
    && Concat(chunks) + (pending + unread) == plain
    && (forall i :: 0 <= i < |chunks| ==> |chunks[i]| <= size)
    && InnerFrames(p, f, level, chunks).Some?
    && written == before + Header(f) + InnerFrames(p, f, level, chunks).value
    && total == Min(|Concat(chunks)|, U64_MAX)
  }

  lemma EncodingStart(p: Primitives, f: Framing, level: int, size: nat, plain: bytes, before: bytes)
    ensures forall pending, unread: bytes :: pending + unread == plain ==>
              Encoding(p, f, level, size, plain, before, [], pending, unread, before + Header(f), 0)
  {
    forall pending, unread: bytes | pending + unread == plain
      ensures Encoding(p, f, level, size, plain, before, [], pending, unread, before + Header(f), 0)
    {
      assert Concat([]) + (pending + unread) == plain;
      assert before + Header(f) + [] == before + Header(f);
    }
  }

  lemma EncodingStep(p: Primitives, f: Framing, level: int, size: nat, plain: bytes, before: bytes,
                     chunks: seq<bytes>, pending: bytes, next: bytes, unread: bytes, written: bytes, total: nat)
    requires Encoding(p, f, level, size, plain, before, chunks, pending, next + unread, written, total)
    requires |pending| <= size && ChunkFrame(p, f, level, |chunks|, false, pending).Some?
    ensures Encoding(p, f, level, size, plain, before, chunks + [pending], next, unread,
                     written + ChunkFrame(p, f, level, |chunks|, false, pending).value, SaturatingAdd(total, |pending|))
  {
    ConcatSnoc(chunks, pending);
    Assoc(Concat(chunks), pending, next + unread);
    InnerSnoc(p, f, level, chunks, pending);
    Assoc(before + Header(f), InnerFrames(p, f, level, chunks).value,
          ChunkFrame(p, f, level, |chunks|, false, pending).value);
    assert forall i :: 0 <= i < |chunks + [pending]| ==> |(chunks + [pending])[i]| <= size;
  }

  lemma InnerSnoc(p: Primitives, f: Framing, level: int, chunks: seq<bytes>, pending: bytes)
    requires InnerFrames(p, f, level, chunks).Some? && ChunkFrame(p, f, level, |chunks|, false, pending).Some?
    ensures InnerFrames(p, f, level, chunks + [pending]) ==
            Some(InnerFrames(p, f, level, chunks).value + ChunkFrame(p, f, level, |chunks|, false, pending).value)
  {
    assert (chunks + [pending])[..|chunks|] == chunks && (chunks + [pending])[|chunks|] == pending;
  }

  lemma EncodingEnd(p: Primitives, f: Framing, level: int, size: nat, plain: bytes, before: bytes,
                    chunks: seq<bytes>, pending: bytes, written: bytes, total: nat)
    requires Encoding(p, f, level, size, plain, before, chunks, pending, [], written, total)
    requires |pending| <= size && ChunkFrame(p, f, level, |chunks|, true, pending).Some?
    ensures ChunksOf(plain, chunks + [pending], size)
    ensures EncodeBlob(p, f, level, chunks + [pending]).Some?
    ensures written + ChunkFrame(p, f, level, |chunks|, true, pending).value ==
            before + EncodeBlob(p, f, level, chunks + [pending]).value
    ensures SaturatingAdd(total, |pending|) == Min(|plain|, U64_MAX)
  {
    var inner, frame := InnerFrames(p, f, level, chunks).value, ChunkFrame(p, f, level, |chunks|, true, pending).value;
    assert pending + [] == pending;
    ConcatSnoc(chunks, pending);
    assert (chunks + [pending])[..|chunks|] == chunks;
    Assoc(before + Header(f), inner, frame);
    Assoc(before, Header(f), inner + frame);
  }

  /** `BlobCodec`: what the configuration selects for writing, and the key for both directions. */
  datatype BlobCodec = BlobCodec(prims: Primitives, cipher: Option<bytes>, cipherChunk: nat,
                                 compression: bool, compressionChunk: nat, level: int)
  {
    /** Bounds enforced on configured chunk sizes. */
    predicate ChunkBounds() {
      1 <= cipherChunk <= MAX_DECOMPRESSED_CHUNK_BYTES && 1 <= compressionChunk <= MAX_DECOMPRESSED_CHUNK_BYTES
    }

    predicate WritesPlain() {
      cipher.None? && !compression
    }
  }

  /** Whatever the reads cut the file into, the encoded blob decodes to the file. */
  lemma StoredDecodes(p: Primitives, f: Framing, cipher: Option<bytes>, level: int, plain: bytes, chunks: seq<bytes>,
                      size: nat)
    requires p.Inverse() && f.Valid() && size <= MAX_DECOMPRESSED_CHUNK_BYTES
    requires f.Encrypted? ==> cipher == Some(f.key)
    requires ChunksOf(plain, chunks, size) && EncodeBlob(p, f, level, chunks).Some?
    ensures DecodeBlob(p, cipher, [] + EncodeBlob(p, f, level, chunks).value) == Some(plain)
    ensures [] + EncodeBlob(p, f, level, chunks).value == EncodeBlob(p, f, level, chunks).value
  {
    EncodeDecode(p, f, cipher, level, chunks);
    assert [] + EncodeBlob(p, f, level, chunks).value == EncodeBlob(p, f, level, chunks).value;
    assert AllFit(f, chunks);
  }

  /**
    What is stored for a file: with a cipher an encrypted stream, compressed inside if compression
    is on; without one a compressed stream if compression is on; otherwise the bytes as they are.
   */
  ghost predicate StoredAs(c: BlobCodec, nonce: bytes, plain: bytes, chunks: seq<bytes>, stored: bytes) {
    if c.cipher.Some? then
      && ChunksOf(plain, chunks, c.cipherChunk)
      && EncodeBlob(c.prims, Encrypted(c.cipher.value, nonce, c.compression), if c.compression then c.level else 0,
                    chunks) == Some(stored)
    else if c.compression then
      ChunksOf(plain, chunks, c.compressionChunk) && EncodeBlob(c.prims, Compressed, c.level, chunks) == Some(stored)
    else
      stored == plain
  }

  /** Exactly the blobs written with a cipher begin with the encryption magic, unless a plain file does. */
  lemma EncryptedIffCipher(c: BlobCodec, nonce: bytes, plain: bytes, chunks: seq<bytes>, stored: bytes)
    requires StoredAs(c, nonce, plain, chunks, stored) && (c.WritesPlain() ==> !HasMagic(plain, ENC_MAGIC))
    ensures HasMagic(stored, ENC_MAGIC) <==> c.cipher.Some?
  {
    if c.cipher.Some? {
      assert stored[..8] == ENC_MAGIC;
    } else if c.compression {
      assert stored[..8] == COMP_MAGIC;
      assert ENC_MAGIC[5] != COMP_MAGIC[5];
    }
  }

  /** `write_blob_from_file_to_writer`; the nonce stands for the random one. */
  method WriteBlob(c: BlobCodec, file: Reader, out: Writer, nonce: bytes)
    returns (r: Option<nat>, ghost chunks: seq<bytes>, ghost bad: Chunk)
    requires file.Valid() && !file.failed && !out.failed && out.written == [] && |nonce| == NONCE_LEN
    requires c.prims.Inverse() && c.ChunkBounds()
    modifies file, out
    ensures file.Valid()
    ensures r.Some? ==> !file.failed && !out.failed && r.value == Min(|old(file.Unread())|, U64_MAX)
    ensures r.Some? ==> StoredAs(c, nonce, old(file.Unread()), chunks, out.written)
    ensures r.Some? && (c.WritesPlain() ==> !Framed(old(file.Unread()))) ==>
              && DecodeBlob(c.prims, c.cipher, out.written) == Some(old(file.Unread()))
              && (HasMagic(out.written, ENC_MAGIC) <==> c.cipher.Some?)
    ensures r.None? ==>
              || file.failed || out.failed
              || (c.cipher.Some? && Refused(c.prims, Encrypted(c.cipher.value, nonce, c.compression),
                                            if c.compression then c.level else 0, bad))
              || (c.cipher.None? && c.compression && Refused(c.prims, Compressed, c.level, bad))
  {
    ghost var plain := file.Unread();
    chunks, bad := [], Chunk(0, true, []);
    if c.cipher.Some? {
      var level := if c.compression then Some(c.level) else None;
      r, chunks, bad := EncryptFileToWriter(c.prims, file, out, c.cipherChunk, c.cipher.value, nonce, level);
      if r.Some? {
        StoredDecodes(c.prims, Encrypted(c.cipher.value, nonce, c.compression), c.cipher,
                      if level.Some? then level.value else 0, plain, chunks, c.cipherChunk);
      }
    } else if c.compression {
      r, chunks, bad := CompressFileToWriter(c.prims, file, out, c.compressionChunk, c.level);
      if r.Some? {
        StoredDecodes(c.prims, Compressed, c.cipher, c.level, plain, chunks, c.compressionChunk);
      }
    } else {
      r := CopyPlainStream(file, out);
      if r.Some? {
        assert out.written == plain;
      }
    }
    if r.Some? && (c.WritesPlain() ==> !Framed(plain)) {
      EncryptedIffCipher(c, nonce, plain, chunks, out.written);
    }
  }

  /** Store a file and read it back: every plaintext, every mode, every pattern of short reads. */
  method RoundTrip(c: BlobCodec, plain: bytes, nonce: bytes)
    returns (stored: Option<bytes>, restored: Option<bytes>, ioFailed: bool)
    requires c.prims.Inverse() && c.ChunkBounds() && |nonce| == NONCE_LEN
    ensures !ioFailed && stored.Some? && (c.WritesPlain() ==> !Framed(plain)) ==> restored == Some(plain)
  {
    var file := new Reader(plain);
    var out := new Writer();
    assert plain[0..] == plain;
    var n, _, _ := WriteBlob(c, file, out, nonce);
    if n.None? {
      return None, None, file.failed || out.failed;
    }
    stored := Some(out.written);
    var blob := new Reader(out.written);
    var back := new Writer();
    assert out.written[0..] == out.written;
    var m := CopyBlobPlaintext(c.prims, c.cipher, blob, back);
    restored := if m.Some? then Some(back.written) else None;
    ioFailed := blob.failed || back.failed;
    assert [] + plain == plain;
  }
}
