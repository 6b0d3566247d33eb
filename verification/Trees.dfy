/** Directory trees: making directories and putting files. */
module Trees {
  import opened Common
  import opened RelPaths

  function Parent(p: Path): Path {
    if p == [] then [] else p[..|p| - 1]
  }

  /** Everything but the root has its parent directory. */
  ghost predicate WellFormed(t: Tree) {
    && [] in t && t[[]].DirNode?
    && forall p {:trigger Parent(p)} :: p in t && p != [] ==> Parent(p) in t && t[Parent(p)].DirNode?
  }

  const EMPTY_DIR: Tree := map[[] := DirNode]

  /** `create_dir_all` below an existing root. */
  function MkdirAll(t: Tree, p: Path): Option<Tree>
    decreases |p|
  {
    if p in t then if t[p].DirNode? then Some(t) else None
    else if p == [] then Some(t[[] := DirNode])
    else match MkdirAll(t, Parent(p))
      case None => None
      case Some(made) => Some(made[p := DirNode])
  }

  /** `x` is `p` or one of its ancestors. */
  predicate Above(x: Path, p: Path) {
    x <= p
  }

  /** Put a file in place of whatever file was there; a directory cannot be replaced. */
  function PutFile(t: Tree, p: Path, node: Node): Option<Tree>
    requires p != []
  {
    match MkdirAll(t, Parent(p))
    case None => None
    case Some(made) => if p in made && made[p].DirNode? then None else Some(made[p := node])
  }

  lemma PrefixOfSnoc(p: Path, q: Path)
    requires q != []
    ensures Above(p, q) <==> p == q || Above(p, Parent(q))
  {
  }

  lemma {:induction false} AncestorsThere(t: Tree, p: Path, x: Path)
    requires WellFormed(t) && p in t && Above(x, p)
    ensures x in t && (x != p ==> t[x].DirNode?)
    decreases |p|
  {
    if x != p {
      PrefixOfSnoc(x, p);
      AncestorsThere(t, Parent(p), x);
    }
  }

  /** `create_dir_all` adds exactly the missing ancestors, as directories. */
  lemma {:induction false} MkdirAllAdds(t: Tree, p: Path)
    requires WellFormed(t) && MkdirAll(t, p).Some?
    ensures var made := MkdirAll(t, p).value;
            && WellFormed(made)
            && p in made && made[p].DirNode?
            && (forall x :: x in made <==> x in t || Above(x, p))
            && (forall x :: x in t ==> made[x] == t[x])
            && (forall x :: x in made && x !in t ==> made[x].DirNode?)
    decreases |p|
  {
    if p in t {
      forall x | Above(x, p) ensures x in t {
        AncestorsThere(t, p, x);
      }
    } else {
      MkdirAllAdds(t, Parent(p));
      forall x ensures Above(x, p) <==> x == p || Above(x, Parent(p)) {
        PrefixOfSnoc(x, p);
      }
    }
  }

  /** Putting a file adds it and its missing ancestors and changes nothing else. */
  lemma PutFileAdds(t: Tree, p: Path, node: Node)
    requires WellFormed(t) && p != [] && PutFile(t, p, node).Some?
    ensures var put := PutFile(t, p, node).value;
            && WellFormed(put)
            && (forall x :: x in put <==> x in t || Above(x, p))
            && put[p] == node
            && (forall x :: x in t && x != p ==> put[x] == t[x])
            && (forall x :: x in put && x !in t && x != p ==> put[x].DirNode?)
  {
    var parent := Parent(p);
    MkdirAllAdds(t, parent);
    forall x ensures Above(x, p) <==> x == p || Above(x, parent) {
      PrefixOfSnoc(x, p);
    }
    PutKeepsShape(MkdirAll(t, parent).value, p, node);
  }

  lemma PutKeepsShape(t: Tree, p: Path, node: Node)
    requires WellFormed(t) && p != [] && Parent(p) in t && t[Parent(p)].DirNode?
    requires p in t ==> !t[p].DirNode?
    ensures WellFormed(t[p := node])
  {
  }
}
