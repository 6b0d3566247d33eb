/**
  The last lines of a log file, read backwards in chunks, against the plain definition: decode the
  whole file, split it into lines, keep the last ones.
 */
module LogTail {
  import opened Common

  const NEWLINE: byte := 10

  // ----- Lossy decoding of UTF-8 -----

  const REPLACEMENT: char := '\U{FFFD}'

  /** The byte at a position, or -1 past the end. */
  function At(b: bytes, i: nat): int {
    if i < |b| then b[i] else -1
  }

  predicate Continues(x: int) {
    0x80 <= x <= 0xBF
  }

  /** The second byte that may follow a leading byte. */
  predicate Follows(lead: int, x: int) {
    if lead == 0xE0 then 0xA0 <= x <= 0xBF
    else if lead == 0xED then 0x80 <= x <= 0x9F
    else if lead == 0xF0 then 0x90 <= x <= 0xBF
    else if lead == 0xF4 then 0x80 <= x <= 0x8F
    else Continues(x)
  }

  /** The first character and the bytes it takes; an invalid sequence takes its longest valid beginning. */
  function Head(b: bytes): (r: (char, nat))
    requires b != []
    ensures 1 <= r.1 <= |b|
  {
    var (x, y, z, w) := (At(b, 0), At(b, 1), At(b, 2), At(b, 3));
    if x < 0x80 then (x as char, 1)
    else if 0xC2 <= x <= 0xDF then
      if Continues(y) then (((x - 0xC0) * 64 + (y - 0x80)) as char, 2) else (REPLACEMENT, 1)
    else if 0xE0 <= x <= 0xEF then
      if !Follows(x, y) then (REPLACEMENT, 1)
      else if !Continues(z) then (REPLACEMENT, 2)
      else (((x - 0xE0) * 4096 + (y - 0x80) * 64 + (z - 0x80)) as char, 3)
    else if 0xF0 <= x <= 0xF4 then
      if !Follows(x, y) then (REPLACEMENT, 1)
      else if !Continues(z) then (REPLACEMENT, 2)
      else if !Continues(w) then (REPLACEMENT, 3)
      else (((x - 0xF0) * 262144 + (y - 0x80) * 4096 + (z - 0x80) * 64 + (w - 0x80)) as char, 4)
    else (REPLACEMENT, 1)
  }

  /** `String::from_utf8_lossy`. */
  function Lossy(b: bytes): string {
    if b == [] then "" else [Head(b).0] + Lossy(b[Head(b).1..])
  }

  /** What follows a newline does not change the character before it. */
  lemma HeadBeforeNewline(a: bytes, rest: bytes)
    requires a != []
    ensures Head(a + [NEWLINE] + rest) == Head(a)
  {
  }

  /** Decoding splits at newlines. */
  lemma {:induction false} LossySplits(a: bytes, rest: bytes)
    ensures Lossy(a + [NEWLINE] + rest) == Lossy(a) + "\n" + Lossy(rest)
    decreases |a|
  {
    var b := a + [NEWLINE] + rest;
    if a == [] {
      assert b == [NEWLINE] + rest && b[1..] == rest;
      assert Head(b) == ('\n', 1);
    } else {
      HeadBeforeNewline(a, rest);
      var (c, n) := Head(a);
      assert b[n..] == a[n..] + [NEWLINE] + rest;
      LossySplits(a[n..], rest);
      Assoc([c], Lossy(a[n..]), "\n");
      Assoc([c], Lossy(a[n..]) + "\n", Lossy(rest));
    }
  }

  // ----- Lines -----

  function StripReturn(line: string): string {
    if line != "" && line[|line| - 1] == '\r' then line[..|line| - 1] else line
  }

  /** The position of the first newline, or the length. */
  function FirstBreak(s: string): (i: nat)
    ensures i <= |s|
    ensures i < |s| ==> s[i] == '\n'
    ensures forall k :: 0 <= k < i ==> s[k] != '\n'
  {
    if s == "" || s[0] == '\n' then 0 else 1 + FirstBreak(s[1..])
  }

  /** `str::lines`: without line endings, and no empty line after a final newline. */
  function Lines(s: string): seq<string>
    decreases |s|
  {
    var i := FirstBreak(s);
    if s == "" then []
    else if i == |s| then [s]
    else [StripReturn(s[..i])] + Lines(s[i + 1..])
  }

  lemma BreakIs(s: string, i: nat)
    requires i < |s| && s[i] == '\n' && forall k :: 0 <= k < i ==> s[k] != '\n'
    ensures FirstBreak(s) == i
  {
  }

  /** The first line. */
  lemma LinesFirst(u: string, v: string)
    requires '\n' !in u
    ensures Lines(u + "\n" + v) == [StripReturn(u)] + Lines(v)
  {
    var s := u + "\n" + v;
    assert s[|u|] == '\n' && forall k :: 0 <= k < |u| ==> s[k] == u[k];
    BreakIs(s, |u|);
    assert s[..|u|] == u && s[|u| + 1..] == v;
  }

  lemma Regroup(u: string, i: nat, v: string)
    requires i < |u| && u[i] == '\n'
    ensures u + "\n" == u[..i] + "\n" + (u[i + 1..] + "\n")
    ensures u + "\n" + v == u[..i] + "\n" + (u[i + 1..] + "\n" + v)
  {
  }

  /** Lines of a text are the lines up to a newline and the lines after it. */
  lemma {:induction false} LinesSplit(u: string, v: string)
    ensures Lines(u + "\n" + v) == Lines(u + "\n") + Lines(v)
    ensures |Lines(u + "\n")| >= 1
    decreases |u|
  {
    var i := FirstBreak(u);
    if i == |u| {
      LinesFirst(u, v);
      LinesFirst(u, "");
      assert u + "\n" + "" == u + "\n";
    } else {
      var p, rest := u[..i], u[i + 1..];
      Regroup(u, i, v);
      LinesFirst(p, rest + "\n" + v);
      LinesFirst(p, rest + "\n");
      LinesSplit(rest, v);
      Assoc([StripReturn(p)], Lines(rest + "\n"), Lines(v));
    }
  }

  function Last(lines: seq<string>, max: nat): seq<string> {
    if |lines| <= max then lines else lines[|lines| - max..]
  }

  function Join(lines: seq<string>): string {
    if lines == [] then ""
    else if |lines| == 1 then lines[0]
    else lines[0] + "\n" + Join(lines[1..])
  }

  /** `tail_lines`. */
  function TailLines(text: string, max: nat): string {
    if max == 0 then "" else Join(Last(Lines(text), max))
  }

  lemma LastOfMany(a: seq<string>, b: seq<string>, max: nat)
    requires |b| >= max
    ensures Last(a + b, max) == Last(b, max)
  {
  }

  // ----- Enough of the end of a file -----

  function Newlines(b: bytes): nat {
    if b == [] then 0 else (if b[0] == NEWLINE then 1 else 0) + Newlines(b[1..])
  }

  lemma {:induction false} NewlinesConcat(a: bytes, b: bytes)
    ensures Newlines(a + b) == Newlines(a) + Newlines(b)
  {
    if a == [] {
      assert a + b == b;
    } else {
      assert (a + b)[1..] == a[1..] + b;
      NewlinesConcat(a[1..], b);
    }
  }

  /** Cutting at the first newline. */
  lemma {:induction false} FirstNewline(b: bytes) returns (x: bytes, y: bytes)
    requires Newlines(b) > 0
    ensures b == x + [NEWLINE] + y && Newlines(y) == Newlines(b) - 1
  {
    if b[0] == NEWLINE {
      x, y := [], b[1..];
    } else {
      var rest;
      rest, y := FirstNewline(b[1..]);
      x := [b[0]] + rest;
    }
  }

  /** Every newline ends a line. */
  lemma {:induction false} AtLeastLines(b: bytes)
    ensures |Lines(Lossy(b))| >= Newlines(b)
    decreases |b|
  {
    if Newlines(b) > 0 {
      var x, y := FirstNewline(b);
      LossySplits(x, y);
      LinesSplit(Lossy(x), Lossy(y));
      AtLeastLines(y);
    }
  }

  /** With enough newlines after it, a beginning does not matter. */
  lemma TailAfterNewline(x: bytes, y: bytes, max: nat)
    requires Newlines(y) >= max
    ensures Last(Lines(Lossy(x + [NEWLINE] + y)), max) == Last(Lines(Lossy(y)), max)
  {
    AtLeastLines(y);
    LossySplits(x, y);
    LinesSplit(Lossy(x), Lossy(y));
    LastOfMany(Lines(Lossy(x) + "\n"), Lines(Lossy(y)), max);
  }

  /** Any end of the file with more newlines than lines asked for gives the same tail as the whole file. */
  lemma EnoughNewlines(front: bytes, end: bytes, max: nat)
    requires Newlines(end) > max
    ensures TailLines(Lossy(end), max) == TailLines(Lossy(front + end), max)
  {
    var x, y := FirstNewline(end);
    assert front + end == (front + x) + [NEWLINE] + y;
    TailAfterNewline(x, y, max);
    TailAfterNewline(front + x, y, max);
  }

  // ----- Reading backwards -----

  /** The chunks in file order; they were read from the end. */
  function InFileOrder(chunks: seq<bytes>): bytes {
    if chunks == [] then [] else chunks[|chunks| - 1] + InFileOrder(chunks[..|chunks| - 1])
  }

  method CountNewlines(buf: bytes) returns (n: nat)
    ensures n == Newlines(buf)
  {
    n := 0;
    for i := 0 to |buf|
      invariant n == Newlines(buf[..i])
    {
      assert buf[..i + 1] == buf[..i] + [buf[i]];
      NewlinesConcat(buf[..i], [buf[i]]);
      assert [buf[i]][1..] == [];
      if buf[i] == NEWLINE {
        n := n + 1;
      }
    }
    assert buf[..|buf|] == buf;
  }

  method Assemble(chunks: seq<bytes>) returns (data: bytes)
    ensures data == InFileOrder(chunks)
  {
    data := [];
    var i := |chunks|;
    assert chunks[..i] == chunks;
    while i > 0
      invariant 0 <= i <= |chunks|
      invariant data + InFileOrder(chunks[..i]) == InFileOrder(chunks)
    {
      i := i - 1;
      assert chunks[..i + 1][..i] == chunks[..i];
      Assoc(data, chunks[i], InFileOrder(chunks[..i]));
      data := data + chunks[i];
    }
    assert data + [] == data;
  }

  /** The backward loop: it stops at the start of the file, with enough newlines, or at the byte cap. */
  method ReadBack(file: bytes, maxLines: nat, readChunkBytes: nat, maxBytes: nat) returns (chunks: seq<bytes>, pos: nat)
    ensures pos <= |file| && InFileOrder(chunks) == file[pos..]
    ensures pos == 0 || Newlines(file[pos..]) > maxLines || |file| - pos >= maxBytes
  {
    chunks := [];
    var at, newlines, total := |file|, 0, 0;
    while at > 0 && newlines <= maxLines && total < maxBytes
      invariant 0 <= at <= |file| && total == |file| - at
      invariant InFileOrder(chunks) == file[at..] && newlines == Newlines(file[at..])
      decreases at
    {
      var take := Min(if readChunkBytes < 1 then 1 else readChunkBytes, at);
      ghost var rest := file[at..];
      at := at - take;
      var buf := file[at..at + take];
      assert file[at..] == buf + rest;
      NewlinesConcat(buf, rest);
      var n := CountNewlines(buf);
      newlines, total := newlines + n, total + |buf|;
      assert (chunks + [buf])[..|chunks|] == chunks;
      chunks := chunks + [buf];
    }
    pos := at;
  }

  /**
    `read_tail_from_file`, I/O errors aside.  When the start of the file or enough newlines are
    reached before the byte cap, the result is the tail of the whole file; that is certain if the
    cap covers the file or its last `maxBytes` bytes have more than `maxLines` newlines.
   */
  method ReadTail(file: bytes, maxLines: nat, readChunkBytes: nat, maxBytes: nat) returns (text: string, ghost pos: nat)
    ensures pos <= |file|
    ensures text == TailLines(Lossy(file[pos..]), maxLines)
    ensures pos == 0 || Newlines(file[pos..]) > maxLines ==> text == TailLines(Lossy(file), maxLines)
    ensures |file| - pos < maxBytes ==> text == TailLines(Lossy(file), maxLines)
    ensures maxBytes >= |file| || Newlines(file[|file| - maxBytes..]) > maxLines ==>
              text == TailLines(Lossy(file), maxLines)
  {
    if maxLines == 0 {
      return "", 0;
    }
    var chunks;
    chunks, pos := ReadBack(file, maxLines, readChunkBytes, maxBytes);
    var data := Assemble(chunks);
    text := TailLines(Lossy(data), maxLines);
    if maxBytes < |file| && |file| - pos >= maxBytes {
      LongerEnd(file, pos, |file| - maxBytes);
    }
    if pos == 0 || Newlines(file[pos..]) > maxLines {
      TailOfEnd(file, pos, maxLines);
    }
  }

  lemma TailOfEnd(file: bytes, pos: nat, max: nat)
    requires pos <= |file| && (pos == 0 || Newlines(file[pos..]) > max)
    ensures TailLines(Lossy(file[pos..]), max) == TailLines(Lossy(file), max)
  {
    assert file[..pos] + file[pos..] == file;
    if pos > 0 {
      EnoughNewlines(file[..pos], file[pos..], max);
    }
  }

  lemma LongerEnd(file: bytes, a: nat, b: nat)
    requires a <= b <= |file|
    ensures Newlines(file[a..]) >= Newlines(file[b..])
  {
    assert file[a..] == file[a..b] + file[b..];
    NewlinesConcat(file[a..b], file[b..]);
  }
}
