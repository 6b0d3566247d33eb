/** The bytes of a stored blob, one by one, and what the position of a frame in an encrypted stream means. */
module BlobFormat {
  import opened Common
  import opened Blobs

  // ----- Layout -----

  /** The bytes spell the text. */
  predicate Spells(b: bytes, text: string) {
    |b| == |text| && forall i :: 0 <= i < |text| ==> b[i] as int == text[i] as int
  }

  /** Length words are four bytes, the most significant one first. */
  lemma BigEndian(n: nat)
    requires n < U32_LIMIT
    ensures var b := ToBE32(n);
            b[0] as nat * 0x100_0000 + b[1] as nat * 0x1_0000 + b[2] as nat * 0x100 + b[3] as nat == n
  {
    var b, n1, n2, n3 := ToBE32(n), n / 0x100, n / 0x100 / 0x100, n / 0x100 / 0x100 / 0x100;
    assert ToBE(n3, 1) == [n3 % 0x100];
    assert ToBE(n2, 2) == [n3 % 0x100, n2 % 0x100];
    assert ToBE(n1, 3) == [n3 % 0x100, n2 % 0x100, n1 % 0x100];
    assert b == [n3 % 0x100, n2 % 0x100, n1 % 0x100, n % 0x100];
  }

  /** A frame is a length word whose top bit marks the last frame, and the payload. */
  lemma FrameLayout(payload: bytes, last: bool)
    ensures FrameBytes(payload, last).Some? <==> |payload| < 0x8000_0000
    ensures FrameBytes(payload, last).Some? ==>
              var s := FrameBytes(payload, last).value;
              && |s| == 4 + |payload| && s[4..] == payload && (s[0] >= 128 <==> last)
              && (s[0] as nat % 128) * 0x100_0000 + s[1] as nat * 0x1_0000 + s[2] as nat * 0x100 + s[3] as nat ==
                 |payload|
  {
    if |payload| < 0x8000_0000 {
      BigEndian(|payload| + if last then LAST_FLAG else 0);
    }
  }

  /** A compressed chunk is its length and what the compressor makes of it; an empty one is the length alone. */
  ghost predicate ZstdLayout(p: Primitives, level: int, pt: bytes, payload: bytes) {
    && |payload| >= 4 && payload[..4] == ToBE32(|pt| % U32_LIMIT) && |pt| < U32_LIMIT
    && (if pt == [] then payload[4..] == [] else p.compress(pt, level) == Some(payload[4..]))
  }

  /** What a chunk is stored as: compressed where the format says so, and sealed at its position if encrypted. */
  lemma ChunkLayout(p: Primitives, f: Framing, level: int, position: nat, last: bool, pt: bytes, ct: bytes)
    requires EncodeChunk(p, f, level, position, last, pt) == Some(ct)
    ensures match f
            case Compressed => ZstdLayout(p, level, pt, ct)
            case Encrypted(key, nonce, zstd) =>
              if !zstd then p.seal(key, nonce, position, last, pt) == Some(ct)
              else exists payload ::
                     ZstdLayout(p, level, pt, payload) && p.seal(key, nonce, position, last, payload) == Some(ct)
  {
    if f.UsesZstd() {
      var payload := BuildZstdPayload(p, pt, level).value;
      assert payload[..4] == ToBE32(|pt|);
      assert pt != [] ==> payload[4..] == p.compress(pt, level).value;
      assert ZstdLayout(p, level, pt, payload);
    }
  }

  /** The header names the format, its version, the algorithm, and the nonce of an encrypted stream. */
  lemma HeaderLayout(f: Framing)
    requires f.Valid()
    ensures var h := Header(f);
            match f
            case Compressed => |h| == 10 && Spells(h[..8], "BSYNCCMP") && h[8] == 1 && h[9] == 1
            case Encrypted(_, nonce, zstd) =>
              && |h| == 29 && Spells(h[..8], "BSYNCENC") && h[8] == 1 && h[9] == (if zstd then 2 else 1)
              && h[10..] == nonce
  {
    var h := Header(f);
    match f
    case Compressed =>
      assert h[..8] == COMP_MAGIC;
    case Encrypted(_, nonce, zstd) =>
      assert h[..8] == ENC_MAGIC;
  }

  // ----- Frames out of place -----

  /** What the cipher accepts at a position, as last or not, was sealed there and as such. */
  ghost predicate Binding(p: Primitives) {
    forall key, nonce, position, last, pt, ct, position', last' ::
      p.seal(key, nonce, position, last, pt) == Some(ct) && p.open(key, nonce, position', last', ct).Some? ==>
        position == position' && last == last'
  }

  /** The frame of one chunk of a stream; the final one is marked. */
  function FrameOf(p: Primitives, f: Framing, level: int, chunks: seq<bytes>, i: nat): Option<bytes>
    requires i < |chunks|
  {
    ChunkFrame(p, f, level, i, i == |chunks| - 1, chunks[i])
  }

  ghost predicate AllFramed(p: Primitives, f: Framing, level: int, chunks: seq<bytes>) {
    forall i :: 0 <= i < |chunks| ==> FrameOf(p, f, level, chunks, i).Some?
  }

  /** Frames of the stream put one after the other, in any order and number. */
  function Picked(p: Primitives, f: Framing, level: int, chunks: seq<bytes>, picks: seq<nat>): bytes
    requires AllFramed(p, f, level, chunks) && forall i :: 0 <= i < |picks| ==> picks[i] < |chunks|
  {
    if picks == [] then []
    else FrameOf(p, f, level, chunks, picks[0]).value + Picked(p, f, level, chunks, picks[1..])
  }

  /** The picks begin with the frames from `k` on, all of them, in order. */
  predicate InOrder(n: nat, k: nat, picks: seq<nat>) {
    k <= n <= k + |picks| && forall i :: 0 <= i < n - k ==> picks[i] == k + i
  }

  /** A frame that is not in its place is refused. */
  lemma MisplacedRefused(p: Primitives, f: Framing, level: int, chunks: seq<bytes>, j: nat, k: nat, tail: bytes)
    requires Binding(p) && f.Encrypted? && AllFramed(p, f, level, chunks) && j < |chunks| && j != k
    ensures DecodeFrames(p, f, k, FrameOf(p, f, level, chunks, j).value + tail) == Bad
  {
    var last := j == |chunks| - 1;
    assert FrameOf(p, f, level, chunks, j).Some?;
    var payload := EncodeChunk(p, f, level, j, last, chunks[j]).value;
    FrameRoundTrip(payload, last, tail);
  }

  /** A frame in its place gives its chunk. */
  lemma InPlace(p: Primitives, f: Framing, level: int, chunks: seq<bytes>, k: nat, tail: bytes)
    requires p.Inverse() && AllFramed(p, f, level, chunks) && AllFit(f, chunks) && k < |chunks|
    ensures DecodeFrames(p, f, k, FrameOf(p, f, level, chunks, k).value + tail) ==
            if k == |chunks| - 1 then Done(chunks[k], tail) else Prepend(chunks[k], DecodeFrames(p, f, k + 1, tail))
  {
    assert FrameOf(p, f, level, chunks, k).Some? && ChunkFits(f, chunks[k]);
    ChunkFrameDecodes(p, f, level, k, k == |chunks| - 1, chunks[k], tail);
  }

  /** The chunks from `k` on if their frames come next, in order, and nothing otherwise. */
  function Expected(p: Primitives, f: Framing, level: int, chunks: seq<bytes>, k: nat, picks: seq<nat>): Decoded
    requires AllFramed(p, f, level, chunks) && forall i :: 0 <= i < |picks| ==> picks[i] < |chunks|
    requires k < |chunks|
  {
    var n := |chunks|;
    if InOrder(n, k, picks) then Done(Concat(chunks[k..]), Picked(p, f, level, chunks, picks[n - k..])) else Bad
  }

  lemma ExpectedNext(p: Primitives, f: Framing, level: int, chunks: seq<bytes>, k: nat, picks: seq<nat>)
    requires AllFramed(p, f, level, chunks) && forall i :: 0 <= i < |picks| ==> picks[i] < |chunks|
    requires picks != [] && k < |chunks| && picks[0] == k
    ensures Expected(p, f, level, chunks, k, picks) ==
            if k == |chunks| - 1 then Done(chunks[k], Picked(p, f, level, chunks, picks[1..]))
            else Prepend(chunks[k], Expected(p, f, level, chunks, k + 1, picks[1..]))
  {
    var n := |chunks|;
    InOrderNext(n, k, picks);
    ConcatFront(chunks[k..]);
    assert chunks[k..][1..] == chunks[k + 1..];
    if InOrder(n, k, picks) {
      assert picks[1..][n - k - 1..] == picks[n - k..];
    }
  }

  /**
    Frames of an encrypted stream decode only in their own order and up to the marked one: whatever
    is dropped, repeated, moved or cut off, the decoder refuses.
   */
  lemma {:induction false} OnlyInOrder(p: Primitives, f: Framing, level: int, chunks: seq<bytes>, k: nat,
                                       picks: seq<nat>)
    requires p.Inverse() && Binding(p) && f.Encrypted? && AllFramed(p, f, level, chunks) && AllFit(f, chunks)
    requires k < |chunks| && forall i :: 0 <= i < |picks| ==> picks[i] < |chunks|
    ensures DecodeFrames(p, f, k, Picked(p, f, level, chunks, picks)) == Expected(p, f, level, chunks, k, picks)
    decreases |picks|
  {
    if picks != [] && picks[0] == k && k < |chunks| - 1 {
      OnlyInOrder(p, f, level, chunks, k + 1, picks[1..]);
    }
    OneMoreFrame(p, f, level, chunks, k, picks);
  }

  /** One frame of that. */
  lemma OneMoreFrame(p: Primitives, f: Framing, level: int, chunks: seq<bytes>, k: nat, picks: seq<nat>)
    requires p.Inverse() && Binding(p) && f.Encrypted? && AllFramed(p, f, level, chunks) && AllFit(f, chunks)
    requires k < |chunks| && forall i :: 0 <= i < |picks| ==> picks[i] < |chunks|
    requires picks != [] && picks[0] == k && k < |chunks| - 1 ==>
               DecodeFrames(p, f, k + 1, Picked(p, f, level, chunks, picks[1..])) ==
               Expected(p, f, level, chunks, k + 1, picks[1..])
    ensures DecodeFrames(p, f, k, Picked(p, f, level, chunks, picks)) == Expected(p, f, level, chunks, k, picks)
  {
    if picks == [] {
      assert DecodeFrames(p, f, k, []) == Bad;
    } else {
      var frame, tail := FrameOf(p, f, level, chunks, picks[0]).value, Picked(p, f, level, chunks, picks[1..]);
      assert Picked(p, f, level, chunks, picks) == frame + tail;
      if picks[0] != k {
        MisplacedRefused(p, f, level, chunks, picks[0], k, tail);
        assert !InOrder(|chunks|, k, picks);
      } else {
        InPlace(p, f, level, chunks, k, tail);
        ExpectedNext(p, f, level, chunks, k, picks);
      }
    }
  }

  lemma InOrderNext(n: nat, k: nat, picks: seq<nat>)
    requires picks != [] && picks[0] == k && k < n
    ensures InOrder(n, k, picks) <==> InOrder(n, k + 1, picks[1..])
  {
    var rest := picks[1..];
    if InOrder(n, k + 1, rest) {
      forall i | 0 <= i < n - k ensures picks[i] == k + i {
        assert i > 0 ==> rest[i - 1] == k + 1 + (i - 1);
      }
    }
    if InOrder(n, k, picks) {
      forall i | 0 <= i < n - k - 1 ensures rest[i] == k + 1 + i {
        assert rest[i] == picks[i + 1];
      }
    }
  }

  lemma {:induction false} ConcatFront(parts: seq<bytes>)
    requires parts != []
    ensures Concat(parts) == parts[0] + Concat(parts[1..])
  {
    if |parts| == 1 {
      assert parts[..0] == [] && parts[1..] == [];
    } else {
      var n := |parts| - 1;
      ConcatFront(parts[..n]);
      assert parts[..n][1..] == parts[1..][..n - 1] && parts[1..][n - 1] == parts[n];
      Assoc(parts[0], Concat(parts[1..][..n - 1]), parts[n]);
    }
  }

  /** The body the encoder writes is its frames in order. */
  lemma BodyInOrder(p: Primitives, f: Framing, level: int, chunks: seq<bytes>)
    requires chunks != []
    ensures Body(p, f, level, chunks).Some? <==> AllFramed(p, f, level, chunks)
    ensures Body(p, f, level, chunks).Some? ==>
              Body(p, f, level, chunks).value == Picked(p, f, level, chunks, seq(|chunks|, i => i))
  {
    var n := |chunks| - 1;
    InnerInOrder(p, f, level, chunks, n);
    if AllFramed(p, f, level, chunks) {
      assert FrameOf(p, f, level, chunks, n).Some?;
      PickedSnoc(p, f, level, chunks, seq(n, i => i), n);
      assert seq(n, i => i) + [n] == seq(|chunks|, i => i);
    }
  }

  lemma {:induction false} InnerInOrder(p: Primitives, f: Framing, level: int, chunks: seq<bytes>, n: nat)
    requires n < |chunks|
    ensures InnerFrames(p, f, level, chunks[..n]).Some? <==>
            forall i :: 0 <= i < n ==> FrameOf(p, f, level, chunks, i).Some?
    ensures AllFramed(p, f, level, chunks) ==>
              InnerFrames(p, f, level, chunks[..n]) == Some(Picked(p, f, level, chunks, seq(n, i => i)))
  {
    if n > 0 {
      InnerInOrder(p, f, level, chunks, n - 1);
      assert chunks[..n][..n - 1] == chunks[..n - 1];
      assert FrameOf(p, f, level, chunks, n - 1) == ChunkFrame(p, f, level, n - 1, false, chunks[n - 1]);
      if AllFramed(p, f, level, chunks) {
        PickedSnoc(p, f, level, chunks, seq(n - 1, i => i), n - 1);
        assert seq(n - 1, i => i) + [n - 1] == seq(n, i => i);
      }
    }
  }

  lemma {:induction false} PickedSnoc(p: Primitives, f: Framing, level: int, chunks: seq<bytes>, picks: seq<nat>,
                                      j: nat)
    requires AllFramed(p, f, level, chunks) && j < |chunks| && forall i :: 0 <= i < |picks| ==> picks[i] < |chunks|
    ensures Picked(p, f, level, chunks, picks + [j]) ==
            Picked(p, f, level, chunks, picks) + FrameOf(p, f, level, chunks, j).value
  {
    if picks == [] {
      assert ([] + [j])[1..] == [];
    } else {
      PickedSnoc(p, f, level, chunks, picks[1..], j);
      assert (picks + [j])[1..] == picks[1..] + [j];
      Assoc(FrameOf(p, f, level, chunks, picks[0]).value, Picked(p, f, level, chunks, picks[1..]),
            FrameOf(p, f, level, chunks, j).value);
    }
  }
}
