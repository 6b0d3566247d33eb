/** What the tail of a log shows: its last lines, whatever characters and line endings they were written with. */
module LogText {
  import opened Common
  import opened LogTail

  // ----- UTF-8 -----

  /** The bytes of one character. */
  function Utf8Char(c: char): (b: bytes)
    ensures 1 <= |b| <= 4
  {
    var n := c as int;
    if n < 0x80 then [n]
    else if n < 0x800 then [0xC0 + n / 64, 0x80 + n % 64]
    else if n < 0x1_0000 then [0xE0 + n / 64 / 64, 0x80 + n / 64 % 64, 0x80 + n % 64]
    else [0xF0 + n / 64 / 64 / 64, 0x80 + n / 64 / 64 % 64, 0x80 + n / 64 % 64, 0x80 + n % 64]
  }

  function Utf8(s: string): bytes {
    if s == "" then [] else Utf8Char(s[0]) + Utf8(s[1..])
  }

  lemma Digits(n: int) returns (high: int, low: int)
    requires n >= 0
    ensures high == n / 64 && low == n % 64 && n == high * 64 + low && 0 <= low < 64 && high >= 0
  {
    high, low := n / 64, n % 64;
  }

  lemma ThreeBytes(n: int)
    requires 0x800 <= n < 0x1_0000 && !(0xD800 <= n < 0xE000)
    ensures n / 64 / 64 * 4096 + n / 64 % 64 * 64 + n % 64 == n && n / 64 / 64 <= 0xF
    ensures Follows(0xE0 + n / 64 / 64, 0x80 + n / 64 % 64)
  {
    var a, _ := Digits(n);
    var b, _ := Digits(a);
  }

  lemma FourBytes(n: int)
    requires 0x1_0000 <= n < 0x11_0000
    ensures n / 64 / 64 / 64 * 262144 + n / 64 / 64 % 64 * 4096 + n / 64 % 64 * 64 + n % 64 == n
    ensures Follows(0xF0 + n / 64 / 64 / 64, 0x80 + n / 64 / 64 % 64) && n / 64 / 64 / 64 <= 4
  {
    var a, _ := Digits(n);
    var b, _ := Digits(a);
    var c, _ := Digits(b);
  }

  /** The decoder takes exactly the bytes of a character off the front, and gives the character. */
  lemma HeadOfChar(c: char, rest: bytes)
    ensures Head(Utf8Char(c) + rest) == (c, |Utf8Char(c)|)
  {
    var n := c as int;
    if 0x80 <= n < 0x800 {
      HeadOfTwo(n, rest);
    } else if 0x800 <= n < 0x1_0000 {
      HeadOfThree(n, rest);
    } else if n >= 0x1_0000 {
      HeadOfFour(n, rest);
    }
  }

  lemma HeadOfTwo(n: int, rest: bytes)
    requires 0x80 <= n < 0x800
    ensures Head([0xC0 + n / 64, 0x80 + n % 64] + rest) == (n as char, 2)
  {
    var b := [0xC0 + n / 64, 0x80 + n % 64] + rest;
    assert At(b, 0) == 0xC0 + n / 64 && At(b, 1) == 0x80 + n % 64;
  }

  lemma HeadOfThree(n: int, rest: bytes)
    requires 0x800 <= n < 0x1_0000 && !(0xD800 <= n < 0xE000)
    ensures Head([0xE0 + n / 64 / 64, 0x80 + n / 64 % 64, 0x80 + n % 64] + rest) == (n as char, 3)
  {
    ThreeBytes(n);
    var b := [0xE0 + n / 64 / 64, 0x80 + n / 64 % 64, 0x80 + n % 64] + rest;
    assert At(b, 0) == 0xE0 + n / 64 / 64 && At(b, 1) == 0x80 + n / 64 % 64 && At(b, 2) == 0x80 + n % 64;
  }

  lemma HeadOfFour(n: int, rest: bytes)
    requires 0x1_0000 <= n < 0x11_0000
    ensures Head([0xF0 + n / 64 / 64 / 64, 0x80 + n / 64 / 64 % 64, 0x80 + n / 64 % 64, 0x80 + n % 64] + rest) ==
            (n as char, 4)
  {
    FourBytes(n);
    var b := [0xF0 + n / 64 / 64 / 64, 0x80 + n / 64 / 64 % 64, 0x80 + n / 64 % 64, 0x80 + n % 64] + rest;
    assert At(b, 0) == 0xF0 + n / 64 / 64 / 64 && At(b, 1) == 0x80 + n / 64 / 64 % 64;
    assert At(b, 2) == 0x80 + n / 64 % 64 && At(b, 3) == 0x80 + n % 64;
  }

  /** Nothing is lost of a text written as UTF-8. */
  lemma {:induction false} LossyOfUtf8(s: string)
    ensures Lossy(Utf8(s)) == s
  {
    if s != "" {
      HeadOfChar(s[0], Utf8(s[1..]));
      assert (Utf8Char(s[0]) + Utf8(s[1..]))[|Utf8Char(s[0])|..] == Utf8(s[1..]);
      LossyOfUtf8(s[1..]);
    }
  }

  // ----- Lines -----

  /** A line as such: no line ending in it or at its end. */
  predicate Clean(line: string) {
    '\n' !in line && (line == "" || line[|line| - 1] != '\r')
  }

  predicate AllClean(lines: seq<string>) {
    forall i :: 0 <= i < |lines| ==> Clean(lines[i])
  }

  /** Lines written one after the other, each with one of the two line endings. */
  function Written(lines: seq<string>, crs: seq<bool>): string
    requires |lines| == |crs|
  {
    if lines == [] then ""
    else lines[0] + (if crs[0] then "\r" else "") + "\n" + Written(lines[1..], crs[1..])
  }

  /** A written line is read back without its ending. */
  lemma FirstWritten(line: string, cr: bool, rest: string)
    requires Clean(line)
    ensures Lines(line + (if cr then "\r" else "") + "\n" + rest) == [line] + Lines(rest)
  {
    var ended := line + if cr then "\r" else "";
    assert '\n' !in ended;
    LinesFirst(ended, rest);
    assert cr ==> ended[..|ended| - 1] == line;
    assert !cr ==> ended == line;
  }

  /** Splitting gives back the lines that were written. */
  lemma {:induction false} LinesOfWritten(lines: seq<string>, crs: seq<bool>)
    requires |lines| == |crs| && AllClean(lines)
    ensures Lines(Written(lines, crs)) == lines
  {
    if lines != [] {
      LinesOfWritten(lines[1..], crs[1..]);
      var rest := Written(lines[1..], crs[1..]);
      FirstWritten(lines[0], crs[0], rest);
      assert Written(lines, crs) == lines[0] + (if crs[0] then "\r" else "") + "\n" + rest;
      assert Lines(Written(lines, crs)) == [lines[0]] + lines[1..];
    }
  }

  /** The lines with a newline between each two: one less than they would be written with. */
  lemma {:induction false} JoinedIsWritten(lines: seq<string>)
    requires lines != []
    ensures Join(lines) + "\n" == Written(lines, seq(|lines|, i => false))
  {
    var plain := seq(|lines|, i => false);
    assert plain[1..] == seq(|lines| - 1, i => false);
    if |lines| > 1 {
      JoinedIsWritten(lines[1..]);
      Assoc(lines[0] + "\n", Join(lines[1..]), "\n");
    } else {
      assert lines[1..] == [];
    }
  }

  /**
    The tail of a log written as lines is its last lines, at most as many as asked for, in order and
    each but the last with a newline.
   */
  lemma TailOfWritten(lines: seq<string>, crs: seq<bool>, max: nat)
    requires |lines| == |crs| && AllClean(lines) && max > 0 && lines != []
    ensures var shown := lines[|lines| - Min(max, |lines|)..];
            TailLines(Lossy(Utf8(Written(lines, crs))), max) + "\n" == Written(shown, seq(|shown|, i => false))
  {
    LossyOfUtf8(Written(lines, crs));
    LinesOfWritten(lines, crs);
    LastLines(lines, max);
    JoinedIsWritten(lines[|lines| - Min(max, |lines|)..]);
  }

  lemma LastLines(lines: seq<string>, max: nat)
    ensures Last(lines, max) == lines[|lines| - Min(max, |lines|)..]
  {
  }
}
