/**
  The blob format: a magic prefix, a header and length-prefixed frames whose top length bit
  marks the last frame.  zstd, the AEAD stream cipher and SHA-256 are parameters; everything
  else (framing, chunk payloads, header parsing) is defined here.
 */
module Blobs {
  import opened Common

  const ENC_MAGIC: bytes := [66, 83, 89, 78, 67, 69, 78, 67]
  const COMP_MAGIC: bytes := [66, 83, 89, 78, 67, 67, 77, 80]
  const ENC_VERSION: byte := 1
  const ALG_STREAM: byte := 1
  const ALG_STREAM_ZSTD: byte := 2
  const NONCE_LEN := 19
  const COMP_VERSION: byte := 1
  const COMP_ALG_ZSTD: byte := 1
  const MAX_DECOMPRESSED_CHUNK_BYTES := 8 * 1024 * 1024
  const U32_LIMIT := 0x1_0000_0000
  const LAST_FLAG := 0x8000_0000

  /**
    The library calls the format is built on.  `seal` and `open` take the key, the stream nonce,
    the position of the chunk in the stream and whether it is the last one.
   */
  datatype Primitives = Primitives(
    compress: (bytes, int) -> Option<bytes>,
    decompress: (bytes, nat) -> Option<bytes>,
    seal: (bytes, bytes, nat, bool, bytes) -> Option<bytes>,
    open: (bytes, bytes, nat, bool, bytes) -> Option<bytes>,
    sha256Hex: bytes -> string)
  {
    /** Decompression at the recorded length undoes compression; opening undoes sealing. */
    ghost predicate Inverse() {
      && (forall pt, level, ct :: compress(pt, level) == Some(ct) ==> decompress(ct, |pt|) == Some(pt))
      && (forall key, nonce, position, last, pt, ct ::
            seal(key, nonce, position, last, pt) == Some(ct) ==> open(key, nonce, position, last, ct) == Some(pt))
    }

    /** SHA-256 taken as collision free. */
    ghost predicate CollisionFree() {
      Injective(sha256Hex)
    }
  }

  /** How one framed blob is encoded. */
  datatype Framing =
    | Compressed
    | Encrypted(key: bytes, nonce: bytes, zstd: bool)
  {
    predicate Valid() {
      Encrypted? ==> |nonce| == NONCE_LEN
    }

    predicate UsesZstd() {
      Compressed? || zstd
    }
  }

  /** Big-endian bytes of a length word. */
  function ToBE(n: nat, width: nat): (b: bytes)
    ensures |b| == width
  {
    if width == 0 then [] else ToBE(n / 0x100, width - 1) + [n % 0x100]
  }

  function FromBE(b: bytes): nat {
    if b == [] then 0 else FromBE(b[..|b| - 1]) * 0x100 + b[|b| - 1] as nat
  }

  function Pow256(width: nat): nat {
    if width == 0 then 1 else 0x100 * Pow256(width - 1)
  }

  lemma {:induction false} BERoundTrip(n: nat, width: nat)
    requires n < Pow256(width)
    ensures FromBE(ToBE(n, width)) == n
  {
    if width > 0 {
      BERoundTrip(n / 0x100, width - 1);
      assert ToBE(n, width)[..width - 1] == ToBE(n / 0x100, width - 1);
    }
  }

  function ToBE32(n: nat): (b: bytes)
    requires n < U32_LIMIT
    ensures |b| == 4
  {
    ToBE(n, 4)
  }

  lemma BE32RoundTrip(n: nat)
    requires n < U32_LIMIT
    ensures FromBE(ToBE32(n)) == n
  {
    assert Pow256(4) == 0x100 * (0x100 * (0x100 * (0x100 * 1)));
    BERoundTrip(n, 4);
  }

  /** `write_framed_chunk`: the length word carries the last-frame mark in its top bit. */
  function FrameBytes(payload: bytes, last: bool): Option<bytes> {
    if |payload| >= LAST_FLAG then None
    else Some(ToBE32(|payload| + if last then LAST_FLAG else 0) + payload)
  }

  datatype Frame = Frame(payload: bytes, last: bool, rest: bytes)

  /** `read_framed_chunk` on the unread part of a stream. */
  function ParseFrame(s: bytes): Option<Frame> {
    if |s| < 4 then None else
    var raw := FromBE(s[..4]);
    var len := raw % LAST_FLAG;
    if |s| - 4 < len then None
    else Some(Frame(s[4..4 + len], raw >= LAST_FLAG, s[4 + len..]))
  }

  lemma FrameRoundTrip(payload: bytes, last: bool, rest: bytes)
    requires FrameBytes(payload, last).Some?
    ensures ParseFrame(FrameBytes(payload, last).value + rest) == Some(Frame(payload, last, rest))
  {
    var word := |payload| + if last then LAST_FLAG else 0;
    BE32RoundTrip(word);
    LengthWord(|payload|, last);
    SplitFrame(ToBE32(word), payload, rest);
  }

  lemma LengthWord(len: nat, last: bool)
    requires len < LAST_FLAG
    ensures var word := len + if last then LAST_FLAG else 0;
            word % LAST_FLAG == len && (word >= LAST_FLAG <==> last)
  {
  }

  lemma SplitFrame(word: bytes, payload: bytes, rest: bytes)
    requires |word| == 4
    ensures var s := word + payload + rest;
            s[..4] == word && s[4..4 + |payload|] == payload && s[4 + |payload|..] == rest
  {
  }

  /** `build_zstd_payload`: plaintext length, then the compressed bytes unless the chunk is empty. */
  function BuildZstdPayload(p: Primitives, pt: bytes, level: int): Option<bytes> {
    if |pt| >= U32_LIMIT then None
    else if pt == [] then Some(ToBE32(0))
    else match p.compress(pt, level)
      case None => None
      case Some(ct) => Some(ToBE32(|pt|) + ct)
  }

  /** `decompress_zstd_payload`. */
  function DecompressZstdPayload(p: Primitives, payload: bytes): Option<bytes> {
    if |payload| < 4 then None else
    var len := FromBE(payload[..4]);
    var ct := payload[4..];
    if len > MAX_DECOMPRESSED_CHUNK_BYTES then None
    else if len == 0 then
      if ct == [] then Some([]) else p.decompress(ct, 0)
    else p.decompress(ct, len)
  }

  /** A built payload opens to its chunk exactly when the chunk is within the decoder's limit. */
  lemma ZstdPayloadRoundTrip(p: Primitives, pt: bytes, level: int)
    requires p.Inverse()
    requires BuildZstdPayload(p, pt, level).Some?
    ensures DecompressZstdPayload(p, BuildZstdPayload(p, pt, level).value) ==
            if |pt| <= 8_388_608 then Some(pt) else None
  {
    BE32RoundTrip(|pt|);
    var payload := BuildZstdPayload(p, pt, level).value;
    assert payload[..4] == ToBE32(|pt|);
    if pt != [] {
      assert payload[4..] == p.compress(pt, level).value;
    }
  }

  function EncodeChunk(p: Primitives, f: Framing, level: int, position: nat, last: bool, pt: bytes): Option<bytes> {
    match f
    case Compressed => BuildZstdPayload(p, pt, level)
    case Encrypted(key, nonce, zstd) =>
      if !zstd then p.seal(key, nonce, position, last, pt)
      else match BuildZstdPayload(p, pt, level)
        case None => None
        case Some(payload) => p.seal(key, nonce, position, last, payload)
  }

  function DecodeChunk(p: Primitives, f: Framing, position: nat, last: bool, payload: bytes): Option<bytes> {
    match f
    case Compressed => DecompressZstdPayload(p, payload)
    case Encrypted(key, nonce, zstd) =>
      match p.open(key, nonce, position, last, payload)
      case None => None
      case Some(decoded) => if zstd then DecompressZstdPayload(p, decoded) else Some(decoded)
  }

  /** A chunk the decoder can take back. */
  predicate ChunkFits(f: Framing, pt: bytes) {
    f.UsesZstd() ==> |pt| <= MAX_DECOMPRESSED_CHUNK_BYTES
  }

  lemma ChunkRoundTrip(p: Primitives, f: Framing, level: int, position: nat, last: bool, pt: bytes)
    requires p.Inverse()
    requires EncodeChunk(p, f, level, position, last, pt).Some?
    ensures DecodeChunk(p, f, position, last, EncodeChunk(p, f, level, position, last, pt).value) ==
            if ChunkFits(f, pt) then Some(pt) else None
  {
    if f.UsesZstd() {
      ZstdPayloadRoundTrip(p, pt, level);
    }
  }

  /** One encoded and framed chunk. */
  function ChunkFrame(p: Primitives, f: Framing, level: int, position: nat, last: bool, pt: bytes): Option<bytes> {
    match EncodeChunk(p, f, level, position, last, pt)
    case None => None
    case Some(payload) => FrameBytes(payload, last)
  }

  /** The frames of chunks that are not the last one. */
  function InnerFrames(p: Primitives, f: Framing, level: int, chunks: seq<bytes>): Option<bytes> {
    if chunks == [] then Some([]) else
    var n := |chunks| - 1;
    match (InnerFrames(p, f, level, chunks[..n]), ChunkFrame(p, f, level, n, false, chunks[n]))
    case (Some(before), Some(frame)) => Some(before + frame)
    case _ => None
  }

  function Header(f: Framing): bytes {
    match f
    case Compressed => COMP_MAGIC + [COMP_VERSION, COMP_ALG_ZSTD]
    case Encrypted(_, nonce, zstd) => ENC_MAGIC + [ENC_VERSION, if zstd then ALG_STREAM_ZSTD else ALG_STREAM] + nonce
  }

  /** The frames of a plaintext cut into `chunks`, the last one marked. */
  function Body(p: Primitives, f: Framing, level: int, chunks: seq<bytes>): Option<bytes>
    requires chunks != []
  {
    var n := |chunks| - 1;
    match (InnerFrames(p, f, level, chunks[..n]), ChunkFrame(p, f, level, n, true, chunks[n]))
    case (Some(inner), Some(frame)) => Some(inner + frame)
    case _ => None
  }

  /** The whole encoded blob for a plaintext cut into `chunks`. */
  function EncodeBlob(p: Primitives, f: Framing, level: int, chunks: seq<bytes>): Option<bytes>
    requires chunks != []
  {
    match Body(p, f, level, chunks)
    case None => None
    case Some(body) => Some(Header(f) + body)
  }

  datatype Decoded = Bad | Done(plain: bytes, rest: bytes)

  function Prepend(front: bytes, d: Decoded): Decoded {
    match d
    case Bad => Bad
    case Done(plain, rest) => Done(front + plain, rest)
  }

  lemma PrependTwice(a: bytes, b: bytes, d: Decoded)
    ensures Prepend(a, Prepend(b, d)) == Prepend(a + b, d)
  {
  }

  /** Decode frames up to the one marked last; `rest` is what follows it. */
  function DecodeFrames(p: Primitives, f: Framing, position: nat, s: bytes): Decoded
    decreases |s|
  {
    match ParseFrame(s)
    case None => Bad
    case Some(frame) =>
      match DecodeChunk(p, f, position, frame.last, frame.payload)
      case None => Bad
      case Some(pt) =>
        if frame.last then Done(pt, frame.rest)
        else Prepend(pt, DecodeFrames(p, f, position + 1, frame.rest))
  }

  /** One turn of a decoding loop that has `acc` behind it and `here` in front of it. */
  lemma DecodeStep(p: Primitives, f: Framing, start: bytes, acc: bytes, position: nat, here: bytes, frame: Frame)
    requires DecodeFrames(p, f, 0, start) == Prepend(acc, DecodeFrames(p, f, position, here))
    requires ParseFrame(here) == Some(frame)
    ensures match DecodeChunk(p, f, position, frame.last, frame.payload)
            case None => DecodeFrames(p, f, 0, start) == Bad
            case Some(pt) =>
              DecodeFrames(p, f, 0, start) ==
              if frame.last then Done(acc + pt, frame.rest)
              else Prepend(acc + pt, DecodeFrames(p, f, position + 1, frame.rest))
  {
  }

  /** `read_encrypted_header` and `read_compressed_header`, on what follows the magic. */
  function ParseEncryptedHeader(key: bytes, s: bytes): Option<(Framing, bytes)> {
    if |s| < 2 + NONCE_LEN || s[0] != ENC_VERSION || (s[1] != ALG_STREAM && s[1] != ALG_STREAM_ZSTD) then None
    else Some((Encrypted(key, s[2..2 + NONCE_LEN], s[1] == ALG_STREAM_ZSTD), s[2 + NONCE_LEN..]))
  }

  function ParseCompressedHeader(s: bytes): Option<(Framing, bytes)> {
    if |s| < 2 || s[0] != COMP_VERSION || s[1] != COMP_ALG_ZSTD then None
    else Some((Compressed, s[2..]))
  }

  predicate HasMagic(s: bytes, magic: bytes) {
    magic <= s
  }

  predicate Framed(s: bytes) {
    HasMagic(s, ENC_MAGIC) || HasMagic(s, COMP_MAGIC)
  }

  function ParseHeader(cipher: Option<bytes>, s: bytes): Option<(Framing, bytes)>
    requires Framed(s)
  {
    if HasMagic(s, COMP_MAGIC) then ParseCompressedHeader(s[8..])
    else if cipher.None? then None
    else ParseEncryptedHeader(cipher.value, s[8..])
  }

  function DecodeFramed(p: Primitives, cipher: Option<bytes>, s: bytes): Decoded
    requires Framed(s)
  {
    match ParseHeader(cipher, s)
    case None => Bad
    case Some((f, rest)) => DecodeFrames(p, f, 0, rest)
  }

  /** The plaintext a stored blob stands for, or None when it cannot be decoded. */
  function DecodeBlob(p: Primitives, cipher: Option<bytes>, s: bytes): Option<bytes> {
    if !Framed(s) then Some(s)
    else match DecodeFramed(p, cipher, s)
      case Bad => None
      case Done(plain, _) => Some(plain)
  }

  /** The hash `sha256_plaintext_blob` promises. */
  function PlainHash(p: Primitives, cipher: Option<bytes>, s: bytes): Option<string> {
    match DecodeBlob(p, cipher, s)
    case None => None
    case Some(plain) => Some(p.sha256Hex(plain))
  }

  // ----- Round trip -----

  /** One frame at the decoder: its chunk comes back, if it fits, and the rest is untouched. */
  lemma ChunkFrameDecodes(p: Primitives, f: Framing, level: int, position: nat, last: bool, pt: bytes, tail: bytes)
    requires p.Inverse()
    requires ChunkFrame(p, f, level, position, last, pt).Some?
    ensures DecodeFrames(p, f, position, ChunkFrame(p, f, level, position, last, pt).value + tail) ==
            if !ChunkFits(f, pt) then Bad
            else if last then Done(pt, tail)
            else Prepend(pt, DecodeFrames(p, f, position + 1, tail))
  {
    var payload := EncodeChunk(p, f, level, position, last, pt).value;
    FrameRoundTrip(payload, last, tail);
    ChunkRoundTrip(p, f, level, position, last, pt);
  }

  predicate AllFit(f: Framing, chunks: seq<bytes>) {
    forall i :: 0 <= i < |chunks| ==> ChunkFits(f, chunks[i])
  }

  /** Decoding across the inner frames yields the chunks and leaves the decoder at their end. */
  lemma {:induction false} InnerFramesDecode(p: Primitives, f: Framing, level: int, chunks: seq<bytes>, tail: bytes)
    requires p.Inverse()
    requires InnerFrames(p, f, level, chunks).Some?
    ensures DecodeFrames(p, f, 0, InnerFrames(p, f, level, chunks).value + tail) ==
            if AllFit(f, chunks) then Prepend(Concat(chunks), DecodeFrames(p, f, |chunks|, tail)) else Bad
    decreases |chunks|
  {
    if chunks == [] {
      assert InnerFrames(p, f, level, chunks).value + tail == tail;
      PrependEmpty(DecodeFrames(p, f, 0, tail));
    } else {
      var n := |chunks| - 1;
      var init, pt := chunks[..n], chunks[n];
      var before := InnerFrames(p, f, level, init).value;
      var frame := ChunkFrame(p, f, level, n, false, pt).value;
      assert before + frame + tail == before + (frame + tail);
      InnerFramesDecode(p, f, level, init, frame + tail);
      ChunkFrameDecodes(p, f, level, n, false, pt, tail);
      PrependTwice(Concat(init), pt, DecodeFrames(p, f, n + 1, tail));
      AllFitSnoc(f, init, pt);
      assert chunks == init + [pt];
    }
  }

  lemma AllFitSnoc(f: Framing, init: seq<bytes>, pt: bytes)
    ensures AllFit(f, init + [pt]) <==> AllFit(f, init) && ChunkFits(f, pt)
  {
    if AllFit(f, init + [pt]) {
      forall i | 0 <= i < |init| ensures ChunkFits(f, init[i]) {
        assert ChunkFits(f, (init + [pt])[i]);
      }
      assert ChunkFits(f, (init + [pt])[|init|]);
    }
  }

  lemma PrependEmpty(d: Decoded)
    ensures Prepend([], d) == d
  {
  }

  lemma CompressedHeader(cipher: Option<bytes>, tail: bytes)
    ensures Framed(Header(Compressed) + tail)
    ensures ParseHeader(cipher, Header(Compressed) + tail) == Some((Compressed, tail))
  {
    var s := Header(Compressed) + tail;
    assert s[..8] == COMP_MAGIC && s[8..] == [COMP_VERSION, COMP_ALG_ZSTD] + tail;
    assert s[8..][2..] == tail;
  }

  lemma EncryptedHeader(key: bytes, nonce: bytes, zstd: bool, tail: bytes)
    requires |nonce| == NONCE_LEN
    ensures Framed(Header(Encrypted(key, nonce, zstd)) + tail)
    ensures ParseHeader(Some(key), Header(Encrypted(key, nonce, zstd)) + tail) ==
              Some((Encrypted(key, nonce, zstd), tail))
  {
    var alg := if zstd then ALG_STREAM_ZSTD else ALG_STREAM;
    var s := Header(Encrypted(key, nonce, zstd)) + tail;
    assert s[..8] == ENC_MAGIC && s[8..] == [ENC_VERSION, alg] + nonce + tail;
    NotCompressed(s);
    var h := s[8..];
    assert h[0] == ENC_VERSION && h[1] == alg;
    assert h[2..2 + NONCE_LEN] == nonce && h[2 + NONCE_LEN..] == tail;
  }

  lemma NotCompressed(s: bytes)
    requires HasMagic(s, ENC_MAGIC)
    ensures !HasMagic(s, COMP_MAGIC)
  {
    assert s[5] == ENC_MAGIC[5] != COMP_MAGIC[5];
  }

  lemma HeaderRoundTrip(f: Framing, cipher: Option<bytes>, tail: bytes)
    requires f.Valid()
    requires f.Encrypted? ==> cipher == Some(f.key)
    ensures Framed(Header(f) + tail)
    ensures ParseHeader(cipher, Header(f) + tail) == Some((f, tail))
  {
    match f
    case Compressed => CompressedHeader(cipher, tail);
    case Encrypted(key, nonce, zstd) => EncryptedHeader(key, nonce, zstd, tail);
  }

  lemma {:induction false} BodyDecodes(p: Primitives, f: Framing, level: int, chunks: seq<bytes>)
    requires p.Inverse() && chunks != []
    requires Body(p, f, level, chunks).Some?
    ensures DecodeFrames(p, f, 0, Body(p, f, level, chunks).value) ==
            if AllFit(f, chunks) then Done(Concat(chunks), []) else Bad
  {
    var n := |chunks| - 1;
    var init, pt := chunks[..n], chunks[n];
    var frame := ChunkFrame(p, f, level, n, true, pt).value;
    InnerFramesDecode(p, f, level, init, frame);
    ChunkFrameDecodes(p, f, level, n, true, pt, []);
    assert frame + [] == frame;
    AllFitSnoc(f, init, pt);
    assert chunks == init + [pt];
  }

  /**
    Round trip, for every way of cutting the plaintext into chunks: the decoder returns the
    plaintext with nothing left over exactly when every zstd chunk is within its limit.
   */
  lemma EncodeDecode(p: Primitives, f: Framing, cipher: Option<bytes>, level: int, chunks: seq<bytes>)
    requires p.Inverse() && f.Valid() && chunks != []
    requires f.Encrypted? ==> cipher == Some(f.key)
    requires EncodeBlob(p, f, level, chunks).Some?
    ensures var s := EncodeBlob(p, f, level, chunks).value;
            && Framed(s)
            && DecodeFramed(p, cipher, s) == if AllFit(f, chunks) then Done(Concat(chunks), []) else Bad
  {
    BodyDecodes(p, f, level, chunks);
    HeaderRoundTrip(f, cipher, Body(p, f, level, chunks).value);
  }

  /**
    A plain copy decodes to itself when it does not start with a magic.  One that does is taken
    for a framed blob: without a key an encryption magic is always refused, and so is any framed
    blob too short for a header and one frame.
   */
  lemma PlainRoundTrip(p: Primitives, cipher: Option<bytes>, file: bytes)
    ensures !Framed(file) ==> DecodeBlob(p, cipher, file) == Some(file)
    ensures HasMagic(file, ENC_MAGIC) && cipher.None? ==> DecodeBlob(p, cipher, file) == None
    ensures Framed(file) && |file| < 14 ==> DecodeBlob(p, cipher, file) == None
  {
    if HasMagic(file, ENC_MAGIC) {
      assert file[5] == 69 && COMP_MAGIC[5] == 67;
    }
  }

  // ----- Self-delimiting -----

  lemma ParseFrameExtends(s: bytes, t: bytes)
    requires ParseFrame(s).Some?
    ensures ParseFrame(s + t) == Some(ParseFrame(s).value.(rest := ParseFrame(s).value.rest + t))
  {
    var len := FromBE(s[..4]) % LAST_FLAG;
    assert (s + t)[..4] == s[..4];
    assert (s + t)[4..4 + len] == s[4..4 + len];
    assert (s + t)[4 + len..] == s[4 + len..] + t;
  }

  /** Bytes after the last frame do not change what is decoded. */
  lemma {:induction false} DecodeFramesExtends(p: Primitives, f: Framing, position: nat, s: bytes, t: bytes)
    requires DecodeFrames(p, f, position, s).Done?
    ensures DecodeFrames(p, f, position, s + t) ==
            Done(DecodeFrames(p, f, position, s).plain, DecodeFrames(p, f, position, s).rest + t)
    decreases |s|
  {
    ParseFrameExtends(s, t);
    var frame := ParseFrame(s).value;
    if !frame.last {
      DecodeFramesExtends(p, f, position + 1, frame.rest, t);
    }
  }

  lemma HeaderExtends(cipher: Option<bytes>, s: bytes, t: bytes)
    requires Framed(s) && ParseHeader(cipher, s).Some?
    ensures Framed(s + t)
    ensures ParseHeader(cipher, s + t) ==
            Some((ParseHeader(cipher, s).value.0, ParseHeader(cipher, s).value.1 + t))
  {
    assert (s + t)[..8] == s[..8];
    assert (s + t)[8..] == s[8..] + t;
    var h := s[8..];
    if |h| >= 2 + NONCE_LEN {
      assert (h + t)[2..2 + NONCE_LEN] == h[2..2 + NONCE_LEN];
      assert (h + t)[2 + NONCE_LEN..] == h[2 + NONCE_LEN..] + t;
    }
    assert (h + t)[2..] == h[2..] + t;
  }

  /** Appending to a framed blob that decodes leaves its plaintext unchanged. */
  lemma TrailingBytesIgnored(p: Primitives, cipher: Option<bytes>, s: bytes, t: bytes)
    requires Framed(s) && DecodeFramed(p, cipher, s).Done?
    ensures Framed(s + t)
    ensures DecodeFramed(p, cipher, s + t) ==
            Done(DecodeFramed(p, cipher, s).plain, DecodeFramed(p, cipher, s).rest + t)
  {
    HeaderExtends(cipher, s, t);
    var (f, body) := ParseHeader(cipher, s).value;
    DecodeFramesExtends(p, f, 0, body, t);
  }

  /**
    For a framed blob that decodes and ends with its last frame: a prefix decodes exactly when it
    is the whole blob or too short to hold the magic, in which case it is taken for plain bytes.
   */
  lemma PrefixDecodes(p: Primitives, cipher: Option<bytes>, s: bytes, m: nat)
    requires Framed(s) && m <= |s|
    requires DecodeFramed(p, cipher, s).Done? && DecodeFramed(p, cipher, s).rest == []
    ensures DecodeBlob(p, cipher, s[..m]).Some? <==> m == |s| || m < 8
    ensures m < 8 ==> DecodeBlob(p, cipher, s[..m]) == Some(s[..m])
  {
    var pre := s[..m];
    assert pre + s[m..] == s;
    if m == |s| {
      assert pre == s;
    } else if m >= 8 && DecodeBlob(p, cipher, pre).Some? {
      assert pre[..8] == s[..8];
      TrailingBytesIgnored(p, cipher, pre, s[m..]);
    }
  }

  /** The same for every blob the encoders produce. */
  lemma EncodedPrefixDecodes(p: Primitives, f: Framing, cipher: Option<bytes>, level: int, chunks: seq<bytes>, m: nat)
    requires p.Inverse() && f.Valid() && chunks != [] && AllFit(f, chunks)
    requires f.Encrypted? ==> cipher == Some(f.key)
    requires EncodeBlob(p, f, level, chunks).Some? && m <= |EncodeBlob(p, f, level, chunks).value|
    ensures var s := EncodeBlob(p, f, level, chunks).value;
            DecodeBlob(p, cipher, s[..m]).Some? <==> m == |s| || m < 8
  {
    EncodeDecode(p, f, cipher, level, chunks);
    PrefixDecodes(p, cipher, EncodeBlob(p, f, level, chunks).value, m);
  }
}
