/** Relative paths as manifests record them, and file trees addressed by resolved paths. */
module RelPaths {
  import opened Common

  /** A resolved path: the names from the root of a tree downwards. */
  type Path = seq<string>

  datatype Node =
    | DirNode
    | FileNode(content: bytes, mtime: Option<(int, nat)>)
    | LinkNode

  type Tree = map<Path, Node>

  /** The pieces of a path string between slashes, empty ones included. */
  function Split(s: string): (r: seq<string>)
    ensures |r| >= 1
  {
    if s == "" then [""]
    else if s[0] == '/' then [""] + Split(s[1..])
    else var rest := Split(s[1..]); [[s[0]] + rest[0]] + rest[1..]
  }

  /** Empty pieces and interior dots do not count as components. */
  predicate IsName(piece: string) {
    piece != "" && piece != "."
  }

  function Names(pieces: seq<string>): Path {
    if pieces == [] then []
    else if IsName(pieces[0]) then [pieces[0]] + Names(pieces[1..])
    else Names(pieces[1..])
  }

  function Resolve(rel: string): Path {
    Names(Split(rel))
  }

  /** A file can only be put at a path that ends in a name, not in a slash or a dot. */
  predicate EndsInName(rel: string) {
    IsName(Split(rel)[|Split(rel)| - 1])
  }

  predicate IsAsciiLetter(c: char) {
    'a' <= c <= 'z' || 'A' <= c <= 'Z'
  }

  /** `validate_relative_path`: only a leading dot piece is reported as a component. */
  predicate ValidRelPath(rel: string) {
    && rel != ""
    && '\\' !in rel
    && !(|rel| >= 2 && IsAsciiLetter(rel[0]) && rel[1] == ':')
    && rel[0] != '/'
    && Split(rel)[0] != "."
    && ".." !in Split(rel)
  }

  /** A name that stays inside the directory it is joined to. */
  predicate Inside(name: string) {
    name != "" && name != "." && name != ".." && '/' !in name
  }

  lemma {:induction false} SplitPieces(s: string)
    ensures forall i :: 0 <= i < |Split(s)| ==> '/' !in Split(s)[i]
    ensures s != "" && s[0] != '/' ==> Split(s)[0] != ""
    decreases |s|
  {
    if s != "" {
      SplitPieces(s[1..]);
    }
  }

  lemma {:induction false} NamesOf(pieces: seq<string>)
    ensures forall n :: n in Names(pieces) <==> n in pieces && IsName(n)
  {
    if pieces != [] {
      NamesOf(pieces[1..]);
      assert pieces == [pieces[0]] + pieces[1..];
    }
  }

  /** A path that passes validation resolves to a nonempty path that cannot leave its root. */
  lemma ValidPathStaysInside(rel: string)
    requires ValidRelPath(rel)
    ensures Resolve(rel) != []
    ensures forall i :: 0 <= i < |Resolve(rel)| ==> Inside(Resolve(rel)[i])
  {
    SplitPieces(rel);
    NamesOf(Split(rel));
    var path := Resolve(rel);
    assert Split(rel)[0] in path;
    forall i | 0 <= i < |path| ensures Inside(path[i]) {
      assert path[i] in path;
      var k :| 0 <= k < |Split(rel)| && Split(rel)[k] == path[i];
    }
  }

  /** Splitting at the first slash. */
  lemma {:induction false} SplitAtSlash(piece: string, rest: string)
    requires '/' !in piece
    ensures Split(piece) == [piece]
    ensures Split(piece + "/" + rest) == [piece] + Split(rest)
    decreases |piece|
  {
    var s := piece + "/" + rest;
    if piece == "" {
      assert s[1..] == rest;
    } else {
      SplitAtSlash(piece[1..], rest);
      assert s[1..] == piece[1..] + "/" + rest;
      assert [piece[0]] + piece[1..] == piece;
    }
  }

  function JoinPieces(pieces: seq<string>): string
    requires pieces != []
  {
    if |pieces| == 1 then pieces[0] else pieces[0] + "/" + JoinPieces(pieces[1..])
  }

  /** No character is lost: joining the pieces with slashes gives the string back. */
  lemma {:induction false} SplitJoin(s: string)
    ensures JoinPieces(Split(s)) == s
    decreases |s|
  {
    if s != "" {
      SplitJoin(s[1..]);
      var rest := Split(s[1..]);
      if s[0] == '/' {
        assert Split(s)[1..] == rest;
      } else {
        assert Split(s)[1..] == rest[1..];
      }
    }
  }

  /** Joining pieces without slashes and splitting again gives them back. */
  lemma {:induction false} JoinSplit(pieces: seq<string>)
    requires pieces != [] && forall i :: 0 <= i < |pieces| ==> '/' !in pieces[i]
    ensures Split(JoinPieces(pieces)) == pieces
  {
    if |pieces| == 1 {
      SplitAtSlash(pieces[0], "");
      assert pieces == [pieces[0]];
    } else {
      JoinSplit(pieces[1..]);
      SplitAtSlash(pieces[0], JoinPieces(pieces[1..]));
      assert pieces == [pieces[0]] + pieces[1..];
    }
  }

  lemma {:induction false} NamesKept(pieces: seq<string>)
    requires forall i :: 0 <= i < |pieces| ==> IsName(pieces[i])
    ensures Names(pieces) == pieces
  {
    if pieces != [] {
      NamesKept(pieces[1..]);
      assert pieces == [pieces[0]] + pieces[1..];
    }
  }

  /**
    A path written as names with slashes between them passes validation and resolves to those names,
    unless a name has a backslash or the path begins like a drive.
   */
  lemma WrittenPathResolves(names: Path)
    requires names != [] && forall i :: 0 <= i < |names| ==> Inside(names[i]) && '\\' !in names[i]
    ensures Resolve(JoinPieces(names)) == names && EndsInName(JoinPieces(names))
    ensures ValidRelPath(JoinPieces(names)) <==>
            !(|JoinPieces(names)| >= 2 && IsAsciiLetter(JoinPieces(names)[0]) && JoinPieces(names)[1] == ':')
  {
    JoinSplit(names);
    NamesKept(names);
    var rel := JoinPieces(names);
    assert names[0] != "" && rel[0] == names[0][0];
    NoBackslash(names);
  }

  lemma {:induction false} NoBackslash(names: Path)
    requires names != [] && forall i :: 0 <= i < |names| ==> '\\' !in names[i]
    ensures '\\' !in JoinPieces(names)
  {
    if |names| > 1 {
      NoBackslash(names[1..]);
    }
  }

  lemma SplitKeys()
    ensures Split("a/b") == ["a", "b"] && Split("a//b") == ["a", "", "b"]
  {
    SplitAtSlash("b", "");
    SplitAtSlash("a", "b");
    SplitAtSlash("", "b");
    SplitAtSlash("a", "/b");
    assert "a/b" == "a" + "/" + "b" && "/b" == "" + "/" + "b" && "a//b" == "a" + "/" + "/b";
  }

  /** Different valid keys can resolve to one path. */
  lemma KeysCollide()
    ensures ValidRelPath("a/b") && ValidRelPath("a//b")
    ensures "a/b" != "a//b" && Resolve("a/b") == Resolve("a//b") == ["a", "b"]
  {
    SplitKeys();
    NamesOfPair("a", "b");
  }

  lemma KeysEndInName()
    ensures EndsInName("a/b") && EndsInName("a//b")
  {
    SplitKeys();
  }

  lemma NamesOfPair(x: string, y: string)
    requires IsName(x) && IsName(y)
    ensures Names([x, y]) == Names([x, "", y]) == [x, y]
  {
    assert [x, y][1..] == [y] && [x, "", y][1..] == ["", y] && ["", y][1..] == [y] && [y][1..] == [];
    assert Names([y]) == [y] && Names(["", y]) == [y];
  }
}
