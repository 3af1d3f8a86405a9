/** Filesystem trees as finite maps from component paths to nodes, with the
    tree algebra that the move, copy and restore proofs are written in. */
module FileTree {

  /** A path is its list of components; the filesystem root is []. */
  type Path = seq<string>

  datatype Owner = Owner(uid: int, gid: int)

  /** Permission bits (mode & 0777) and the three special bits. */
  datatype Mode = Mode(perm: nat, setuid: bool, setgid: bool, sticky: bool)

  /** Special stands for devices, fifos and sockets. */
  datatype Node =
    | Dir(owner: Owner, mode: Mode)
    | File(content: string, owner: Owner, mode: Mode)
    | Link(target: Path, owner: Owner)
    | Special(owner: Owner, mode: Mode)

  type Fs = map<Path, Node>

  /** A tree has the same shape as a filesystem, but its paths are relative. */
  type Tree = map<Path, Node>

  function Parent(p: Path): Path
    requires p != []
  {
    p[..|p| - 1]
  }

  ghost predicate WellFormed(fs: Fs) {
    forall p {:trigger Parent(p)} :: p in fs && p != [] ==> Parent(p) in fs && fs[Parent(p)].Dir?
  }

  predicate Disjoint(p: Path, q: Path) {
    !(p <= q) && !(q <= p)
  }

  /** Paths, relative to p, of everything at p or below it. */
  function Rels(fs: Fs, p: Path): set<Path> {
    set q | q in fs && p <= q :: q[|p|..]
  }

  /** The same paths, from the filesystem root. */
  function Under(fs: Fs, p: Path): set<Path> {
    set q | q in fs && p <= q
  }

  /** Everything at p or below it, as a tree. */
  function Subtree(fs: Fs, p: Path): Tree {
    map r | r in Rels(fs, p) && p + r in fs :: fs[p + r]
  }

  /** The filesystem without p and everything below it. */
  function Prune(fs: Fs, p: Path): Fs {
    map q | q in fs && !(p <= q) :: fs[q]
  }

  /** The filesystem with tree t in place of whatever was at p. */
  function Graft(fs: Fs, p: Path, t: Tree): Fs {
    Prune(fs, p) + map q | q in (set r | r in t :: p + r) && q[|p|..] in t :: t[q[|p|..]]
  }

  lemma SubtreeAt(fs: Fs, p: Path, r: Path)
    ensures r in Subtree(fs, p) <==> p + r in fs
    ensures r in Subtree(fs, p) ==> Subtree(fs, p)[r] == fs[p + r]
  {
    assert (p + r)[|p|..] == r;
    if p + r in fs {
      assert p <= p + r;
      assert r in Rels(fs, p);
    }
  }

  lemma UnderIsOffset(p: Path, q: Path)
    requires p <= q
    ensures q == p + q[|p|..]
  {
  }

  lemma GraftAt(fs: Fs, p: Path, t: Tree, q: Path)
    ensures !(p <= q) ==> (q in Graft(fs, p, t) <==> q in fs)
    ensures !(p <= q) && q in fs ==> Graft(fs, p, t)[q] == fs[q]
    ensures p <= q ==> (q in Graft(fs, p, t) <==> q[|p|..] in t)
    ensures p <= q && q[|p|..] in t ==> Graft(fs, p, t)[q] == t[q[|p|..]]
  {
    var keys := set r | r in t :: p + r;
    if p <= q {
      UnderIsOffset(p, q);
      if q[|p|..] in t {
        assert q in keys;
      }
    }
  }

  lemma GraftedSubtree(fs: Fs, p: Path, t: Tree)
    ensures Subtree(Graft(fs, p, t), p) == t
  {
    var g := Graft(fs, p, t);
    var s := Subtree(g, p);
    forall r
      ensures r in s <==> r in t
      ensures r in t ==> r in s && s[r] == t[r]
    {
      SubtreeAt(g, p, r);
      GraftAt(fs, p, t, p + r);
      assert (p + r)[|p|..] == r;
    }
  }

  lemma GraftedOutside(fs: Fs, p: Path, t: Tree)
    ensures Prune(Graft(fs, p, t), p) == Prune(fs, p)
  {
    var a, b := Prune(Graft(fs, p, t), p), Prune(fs, p);
    forall q
      ensures q in a <==> q in b
      ensures q in b ==> q in a && a[q] == b[q]
    {
      GraftAt(fs, p, t, q);
    }
  }

  lemma GraftTree(fs: Fs, p: Path, t: Tree)
    ensures Subtree(Graft(fs, p, t), p) == t
    ensures Prune(Graft(fs, p, t), p) == Prune(fs, p)
  {
    GraftedSubtree(fs, p, t);
    GraftedOutside(fs, p, t);
  }

  /** A filesystem is what lies outside p together with what lies at or below it. */
  lemma IsGraft(a: Fs, b: Fs, p: Path, t: Tree)
    requires Prune(a, p) == Prune(b, p) && Subtree(a, p) == t
    ensures a == Graft(b, p, t)
  {
    var g := Graft(b, p, t);
    forall q
      ensures q in a <==> q in g
      ensures q in a ==> q in g && a[q] == g[q]
    {
      GraftAt(b, p, t, q);
      if p <= q {
        UnderIsOffset(p, q);
        SubtreeAt(a, p, q[|p|..]);
      } else {
        assert q in a <==> q in Prune(a, p);
        assert q in b <==> q in Prune(b, p);
      }
    }
  }

  /** Changes confined to p are invisible at every path not below p. */
  lemma PruneFrame(a: Fs, b: Fs, p: Path, q: Path)
    requires Prune(a, p) == Prune(b, p) && !(p <= q)
    ensures q in a <==> q in b
    ensures q in a ==> a[q] == b[q]
  {
    assert q in a <==> q in Prune(a, p);
    assert q in b <==> q in Prune(b, p);
  }

  /** Changes confined to p leave every disjoint subtree alone. */
  lemma SubtreeFrame(a: Fs, b: Fs, p: Path, x: Path)
    requires Prune(a, p) == Prune(b, p) && Disjoint(p, x)
    ensures Subtree(a, x) == Subtree(b, x)
  {
    forall r
      ensures r in Subtree(a, x) <==> r in Subtree(b, x)
      ensures r in Subtree(a, x) ==> r in Subtree(b, x) && Subtree(a, x)[r] == Subtree(b, x)[r]
    {
      SubtreeAt(a, x, r);
      SubtreeAt(b, x, r);
      if p <= x + r {
        PrefixesCompare(p, x, x + r);
      }
      PruneFrame(a, b, p, x + r);
    }
  }

  lemma PrefixesCompare(p: Path, x: Path, q: Path)
    requires p <= q && x <= q
    ensures p <= x || x <= p
  {
    if |p| <= |x| {
      assert p == q[..|p|] == x[..|p|];
    } else {
      assert x == q[..|x|] == p[..|x|];
    }
  }

  /** A change confined to a descendant is confined to the ancestor. */
  lemma PruneWiden(a: Fs, b: Fs, p: Path, q: Path)
    requires p <= q && Prune(a, q) == Prune(b, q)
    ensures Prune(a, p) == Prune(b, p)
  {
    forall x
      ensures x in Prune(a, p) <==> x in Prune(b, p)
      ensures x in Prune(a, p) ==> x in Prune(b, p) && Prune(a, p)[x] == Prune(b, p)[x]
    {
      if q <= x {
        assert p <= x;
      } else {
        PruneFrame(a, b, q, x);
      }
    }
  }

  lemma SubtreeOfAbsent(fs: Fs, p: Path)
    requires WellFormed(fs) && p !in fs
    ensures Subtree(fs, p) == map[]
  {
    forall r ensures r !in Subtree(fs, p) {
      SubtreeAt(fs, p, r);
      if p + r in fs {
        PrefixClosed(fs, p, p + r);
      }
    }
  }

  /** In a well-formed filesystem every ancestor of a node is a directory. */
  lemma {:induction false} PrefixClosed(fs: Fs, p: Path, q: Path)
    requires WellFormed(fs) && q in fs && p <= q
    ensures p in fs
    ensures p != q ==> fs[p].Dir?
    decreases |q|
  {
    if p != q {
      assert p <= Parent(q);
      PrefixClosed(fs, p, Parent(q));
    }
  }

  /** Some node at or below p has no children, unless there is nothing there. */
  lemma LeafExists(fs: Fs, p: Path) returns (leaf: Path)
    requires exists q :: q in fs && p <= q
    ensures leaf in fs && p <= leaf
    ensures forall q :: q in fs && leaf <= q ==> q == leaf
  {
    var q :| q in fs && p <= q;
    leaf := q;
    var rest := fs.Keys;
    while rest != {}
      invariant leaf in fs && p <= leaf
      invariant forall x :: x in fs && p <= x && x !in rest ==> |x| <= |leaf|
    {
      var x :| x in rest;
      rest := rest - {x};
      if p <= x && |leaf| < |x| { leaf := x; }
    }
    forall x | x in fs && leaf <= x ensures x == leaf {
      assert p <= x;
      assert x[..|leaf|] == leaf;
    }
  }

  // ---- What it means for one tree to hold the data of another --------------

  /** Same kind, same content, same link target; owner and mode may differ. */
  predicate SameData(a: Node, b: Node) {
    match a
    case Dir(_, _) => b.Dir?
    case File(c, _, _) => b.File? && b.content == c
    case Link(t, _) => b.Link? && b.target == t
    case Special(_, _) => b.Special?
  }

  /** Same kind and same link target: all that resolving a path can tell. */
  predicate SameShape(a: Node, b: Node) {
    match a
    case Dir(_, _) => b.Dir?
    case File(_, _, _) => b.File?
    case Link(t, _) => b.Link? && b.target == t
    case Special(_, _) => b.Special?
  }

  /** Every path of t is present in big with t's data. */
  ghost predicate Covers(big: Tree, t: Tree) {
    forall r :: r in t ==> r in big && SameData(big[r], t[r])
  }

  ghost predicate SubtreeOf(small: Tree, big: Tree) {
    forall r :: r in small ==> r in big && small[r] == big[r]
  }

  ghost predicate NoSpecial(t: Tree) {
    forall r :: r in t ==> !t[r].Special?
  }
}
