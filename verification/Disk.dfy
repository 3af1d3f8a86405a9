/** The disk the agent works on. What may go wrong is a parameter of each
    operation; `history` keeps every state the disk was ever in, so that what
    holds throughout it holds after a crash at any point. */
module DiskState {
  import opened FileTree

  // ---- Following symlinks -----------------------------------------------------

  const MAX_LINK_HOPS: nat := 40

  /** Where a path leads: no symlink is left in it, and its parent is a directory;
      the place itself may be empty. `left` is how many more symlinks may be followed. */
  datatype Place = Nowhere | At(path: Path, left: nat)

  function Locate(fs: Fs, p: Path, hops: nat): (r: Place)
    ensures r.At? ==> r.left <= hops
    decreases hops, |p|
  {
    if p == [] then At([], hops)
    else
      match Locate(fs, Parent(p), hops)
      case Nowhere => Nowhere
      case At(dir, left) =>
        var q := dir + [p[|p| - 1]];
        if dir !in fs || !fs[dir].Dir? then Nowhere
        else if q in fs && fs[q].Link? then (if left == 0 then Nowhere else Locate(fs, fs[q].target, left - 1))
        else At(q, left)
  }

  /** Where opening p leads, for a p whose parent is a directory. */
  function OpenTarget(fs: Fs, p: Path): Place {
    if p in fs && fs[p].Link? then Locate(fs, fs[p].target, MAX_LINK_HOPS - 1) else At(p, MAX_LINK_HOPS)
  }

  lemma {:induction false} LocateDir(fs: Fs, p: Path, hops: nat)
    requires WellFormed(fs) && p in fs && fs[p].Dir?
    ensures Locate(fs, p, hops) == At(p, hops)
    decreases |p|
  {
    if p != [] {
      LocateDir(fs, Parent(p), hops);
      assert Parent(p) + [p[|p| - 1]] == p;
    }
  }

  /** OpenTarget is the resolution of the whole path. */
  lemma OpenTargetLocates(fs: Fs, p: Path)
    requires WellFormed(fs) && p != [] && Parent(p) in fs && fs[Parent(p)].Dir?
    ensures OpenTarget(fs, p) == Locate(fs, p, MAX_LINK_HOPS)
  {
    LocateDir(fs, Parent(p), MAX_LINK_HOPS);
    assert Parent(p) + [p[|p| - 1]] == p;
  }

  lemma {:induction false} LocatedParent(fs: Fs, p: Path, hops: nat)
    requires WellFormed(fs) && [] in fs && fs[[]].Dir?
    ensures var at := Locate(fs, p, hops);
            at.At? ==> (at.path in fs ==> !fs[at.path].Link?)
                       && (at.path != [] ==> Parent(at.path) in fs && fs[Parent(at.path)].Dir?)
    decreases hops, |p|
  {
    if p != [] {
      LocatedParent(fs, Parent(p), hops);
      var up := Locate(fs, Parent(p), hops);
      if up.At? {
        var q := up.path + [p[|p| - 1]];
        assert Parent(q) == up.path;
        if up.path in fs && fs[up.path].Dir? && q in fs && fs[q].Link? && up.left > 0 {
          LocatedParent(fs, fs[q].target, up.left - 1);
        }
      }
    }
  }

  /** What resolves to something still does when more is there. */
  lemma {:induction false} LocateWithin(a: Fs, b: Fs, p: Path, hops: nat)
    requires forall q :: q in a ==> q in b && SameShape(a[q], b[q])
    requires Locate(a, p, hops).At? && Locate(a, p, hops).path in a
    ensures Locate(b, p, hops) == Locate(a, p, hops)
    decreases hops, |p|
  {
    if p != [] {
      LocateWithin(a, b, Parent(p), hops);
      var up := Locate(a, Parent(p), hops);
      var q := up.path + [p[|p| - 1]];
      assert q in a;
      if a[q].Link? { LocateWithin(a, b, a[q].target, up.left - 1); }
    }
  }

  /** os.Stat finds something: symlinks are followed. */
  predicate Exists(fs: Fs, p: Path) {
    var at := Locate(fs, p, MAX_LINK_HOPS);
    at.At? && at.path in fs
  }

  lemma ExistsUnlessLink(fs: Fs, p: Path)
    requires WellFormed(fs) && p != [] && Parent(p) in fs && fs[Parent(p)].Dir?
    ensures p !in fs ==> !Exists(fs, p)
    ensures p in fs && !fs[p].Link? ==> Exists(fs, p)
  {
    OpenTargetLocates(fs, p);
  }

  lemma SameOnward(fs: Fs, p: Path, q: Path, n: string, hops: nat, hops': nat)
    requires Locate(fs, p, hops) == Locate(fs, q, hops')
    ensures Locate(fs, p + [n], hops) == Locate(fs, q + [n], hops')
  {
    assert Parent(p + [n]) == p && Parent(q + [n]) == q;
  }

  /** A link stands for its target, on the way as well as at the end. */
  lemma {:induction false} LinkSubstitutes(fs: Fs, p: Path, rest: Path, hops: nat)
    requires WellFormed(fs) && p in fs && p != [] && fs[p].Link? && hops > 0
    ensures Locate(fs, p + rest, hops) == Locate(fs, fs[p].target + rest, hops - 1)
    decreases |rest|
  {
    var t := fs[p].target;
    if rest == [] {
      LocateDir(fs, Parent(p), hops);
      assert Parent(p) + [p[|p| - 1]] == p && p + rest == p && t + rest == t;
    } else {
      var init, n := Parent(rest), rest[|rest| - 1];
      LinkSubstitutes(fs, p, init, hops);
      SameOnward(fs, p + init, t + init, n, hops, hops - 1);
      assert p + init + [n] == p + rest && t + init + [n] == t + rest;
    }
  }

  /** Stat sees a link exactly when it sees what the link leads to. */
  lemma ExistsThroughLink(fs: Fs, p: Path)
    requires WellFormed(fs) && p in fs && p != [] && fs[p].Link?
    requires var t := fs[p].target; t != [] && Parent(t) in fs && fs[Parent(t)].Dir? && !(t in fs && fs[t].Link?)
    ensures Exists(fs, p) <==> fs[p].target in fs
  {
    var t := fs[p].target;
    LinkSubstitutes(fs, p, [], MAX_LINK_HOPS);
    assert p + [] == p && t + [] == t;
    LocateDir(fs, Parent(t), MAX_LINK_HOPS - 1);
    assert Parent(t) + [t[|t| - 1]] == t;
  }

  /** What os.MkdirAll(p) ends at: an existing directory, perhaps behind a symlink,
      or p itself, to be made. A symlink to nothing is an error. */
  function MkdirTarget(fs: Fs, p: Path): Place {
    var at := OpenTarget(fs, p);
    if at.At? && (if at.path in fs then fs[at.path].Dir? else at.path == p) then at else Nowhere
  }

  /** What os.OpenFile(p) with O_CREATE and O_TRUNC opens: a file, or a place where
      one can be created, perhaps behind a symlink. */
  function FileTarget(fs: Fs, p: Path): Place {
    var at := OpenTarget(fs, p);
    if at.At? && (at.path in fs ==> fs[at.path].File?) then at else Nowhere
  }

  // ---- Renaming and removing ----------------------------------------------------

  /** Go refuses a rename onto a directory, the kernel one of a directory onto something else. */
  predicate CanRename(fs: Fs, src: Path, dst: Path) {
    src in fs && !(dst in fs && (fs[dst].Dir? || fs[src].Dir?))
  }

  function Renamed(fs: Fs, src: Path, dst: Path): Fs {
    Graft(Prune(fs, src), dst, Subtree(fs, src))
  }

  /** q cannot be removed, because something at or below it cannot. */
  predicate Held(fs: Fs, stuck: set<Path>, q: Path) {
    exists s :: s in stuck && s in fs && q <= s
  }

  /** What os.RemoveAll(p) leaves when the nodes in `stuck` cannot be removed. */
  function Cleared(fs: Fs, p: Path, stuck: set<Path>): Fs {
    map q | q in fs && (p <= q ==> Held(fs, stuck, q)) :: fs[q]
  }

  lemma ClearedShape(fs: Fs, p: Path, stuck: set<Path>)
    requires WellFormed(fs)
    ensures WellFormed(Cleared(fs, p, stuck))
    ensures Prune(Cleared(fs, p, stuck), p) == Prune(fs, p)
    ensures SubtreeOf(Subtree(Cleared(fs, p, stuck), p), Subtree(fs, p))
  {
    var g := Cleared(fs, p, stuck);
    forall q | q in g && q != [] ensures Parent(q) in g && g[Parent(q)].Dir? {
      assert Parent(q) <= q;
    }
    forall r | r in Subtree(g, p) ensures r in Subtree(fs, p) && Subtree(g, p)[r] == Subtree(fs, p)[r] {
      SubtreeAt(g, p, r);
      SubtreeAt(fs, p, r);
    }
  }

  lemma ClearedWhole(fs: Fs, p: Path)
    requires WellFormed(fs)
    ensures Cleared(fs, p, {}) == Prune(fs, p)
  {
  }

  lemma ClearedGone(fs: Fs, p: Path, stuck: set<Path>)
    ensures stuck == {} ==> p !in Cleared(fs, p, stuck)
  {
    assert p <= p;
  }

  lemma ClearedAbsent(fs: Fs, p: Path, stuck: set<Path>)
    requires WellFormed(fs) && p !in fs
    ensures Cleared(fs, p, stuck) == fs
  {
    forall q | q in fs ensures !(p <= q) {
      if p <= q { PrefixClosed(fs, p, q); }
    }
  }

  // ---- Confinement ----------------------------------------------------------------

  /** Every state from index `from` on differs from `base` at or below p only. */
  ghost predicate Confined(h: seq<Fs>, from: nat, base: Fs, p: Path) {
    forall i :: from <= i < |h| ==> Prune(h[i], p) == Prune(base, p)
  }

  lemma ConfinedWiden(h: seq<Fs>, from: nat, a: Fs, b: Fs, p: Path, q: Path)
    requires Confined(h, from, a, q) && p <= q && Prune(a, p) == Prune(b, p)
    ensures Confined(h, from, b, p)
  {
    forall i | from <= i < |h| ensures Prune(h[i], p) == Prune(b, p) {
      PruneWiden(h[i], a, p, q);
    }
  }

  lemma ConfinedJoin(h1: seq<Fs>, h2: seq<Fs>, from: nat, base: Fs, p: Path)
    requires h1 <= h2 && Confined(h1, from, base, p) && Confined(h2, |h1|, base, p)
    ensures Confined(h2, from, base, p)
  {
    forall i | from <= i < |h2| ensures Prune(h2[i], p) == Prune(base, p) {
      if i < |h1| { assert h1[i] == h2[i]; }
    }
  }

  lemma PutFrame(fs: Fs, p: Path, n: Node)
    ensures Prune(fs[p := n], p) == Prune(fs, p)
    ensures Subtree(fs[p := n], p) == Subtree(fs, p)[[] := n]
  {
    var g := fs[p := n];
    assert Prune(g, p) == Prune(fs, p);
    forall r
      ensures r in Subtree(g, p) <==> r in Subtree(fs, p)[[] := n]
      ensures r in Subtree(g, p) ==> Subtree(g, p)[r] == Subtree(fs, p)[[] := n][r]
    {
      PutBelow(fs, p, n, r);
    }
  }

  lemma PutBelow(fs: Fs, p: Path, n: Node, r: Path)
    ensures r in Subtree(fs[p := n], p) <==> r == [] || r in Subtree(fs, p)
    ensures r in Subtree(fs[p := n], p) ==> Subtree(fs[p := n], p)[r] == if r == [] then n else Subtree(fs, p)[r]
  {
    SubtreeAt(fs, p, r);
    SubtreeAt(fs[p := n], p, r);
    assert p + [] == p;
    if r != [] { assert |p + r| != |p|; }
  }

  lemma LeafTree(fs: Fs, p: Path)
    requires WellFormed(fs) && p in fs && !fs[p].Dir?
    ensures Subtree(fs, p) == map[[] := fs[p]]
  {
    var s := Subtree(fs, p);
    assert p + [] == p;
    SubtreeAt(fs, p, []);
    forall r | r in s ensures r == [] {
      SubtreeAt(fs, p, r);
      PrefixClosed(fs, p, p + r);
    }
  }

  lemma RootOfTree(fs: Fs, p: Path)
    ensures [] in Subtree(fs, p) <==> p in fs
    ensures p in fs ==> Subtree(fs, p)[[]] == fs[p]
  {
    assert p + [] == p;
    SubtreeAt(fs, p, []);
  }

  lemma ParentOutside(p: Path, q: Path)
    requires p != [] && Disjoint(p, q)
    ensures !(q <= Parent(p)) && !(p <= Parent(p))
  {
    assert Parent(p) <= p;
  }

  class Disk {
    var nodes: Fs
    ghost var history: seq<Fs>

    ghost predicate Valid()
      reads this
    {
      WellFormed(nodes) && history != [] && history[|history| - 1] == nodes
    }

    constructor (fs: Fs)
      requires WellFormed(fs)
      ensures Valid() && nodes == fs && history == [fs]
    {
      nodes, history := fs, [fs];
    }

    /** Creates or replaces the single node at p. */
    method Put(p: Path, n: Node)
      requires Valid() && p != [] && Parent(p) in nodes && nodes[Parent(p)].Dir?
      requires p in nodes && nodes[p].Dir? ==> n.Dir?
      modifies this
      ensures Valid() && nodes == old(nodes)[p := n] && history == old(history) + [nodes]
    {
      nodes := nodes[p := n];
      history := history + [nodes];
    }

    /** Removes the single non-directory node at p. */
    method Take(p: Path)
      requires Valid() && p in nodes && !nodes[p].Dir?
      modifies this
      ensures Valid() && nodes == old(nodes) - {p} && history == old(history) + [nodes]
    {
      TakeKeepsShape(nodes, p);
      nodes := nodes - {p};
      history := history + [nodes];
    }

    /** os.Rename; `works` is false when it fails although nothing is in the way,
        as between filesystems. */
    method Rename(src: Path, dst: Path, works: bool) returns (ok: bool)
      requires Valid() && dst != [] && (src in nodes ==> Disjoint(src, dst))
      requires Parent(dst) in nodes && nodes[Parent(dst)].Dir?
      modifies this
      ensures Valid() && ok == (works && CanRename(old(nodes), src, dst))
      ensures nodes == if ok then Renamed(old(nodes), src, dst) else old(nodes)
      ensures history == if ok then old(history) + [nodes] else old(history)
    {
      if !works || !CanRename(nodes, src, dst) { return false; }
      RenameKeepsShape(nodes, src, dst);
      nodes := Renamed(nodes, src, dst);
      history := history + [nodes];
      return true;
    }

    /** os.RemoveAll, one node at a time, children before their directory; it goes
        on after a node that cannot be removed. */
    method RemoveAll(p: Path, stuck: set<Path>)
      requires Valid() && p != []
      modifies this
      ensures Valid() && nodes == Cleared(old(nodes), p, stuck)
      ensures old(history) <= history && Confined(history, |old(history)|, old(nodes), p)
    {
      ghost var f0 := nodes;
      var todo := set q | q in nodes && p <= q && !Held(nodes, stuck, q);
      while todo != {}
        invariant Valid() && Cleared(nodes, p, stuck) == Cleared(f0, p, stuck) && Prune(nodes, p) == Prune(f0, p)
        invariant todo == set q | q in nodes && p <= q && !Held(nodes, stuck, q)
        invariant old(history) <= history && Confined(history, |old(history)|, f0, p)
        decreases todo
      {
        ghost var deepest := FreeLeafExists(nodes, p, stuck, todo);
        var leaf :| leaf in todo && forall q :: q in nodes && leaf <= q ==> q == leaf;
        RemoveFreeLeaf(nodes, p, stuck, leaf);
        nodes := nodes - {leaf};
        history := history + [nodes];
        todo := todo - {leaf};
      }
      assert forall q :: q in nodes && p <= q && !Held(nodes, stuck, q) ==> q in todo;
      assert Cleared(nodes, p, stuck) == nodes;
    }
  }

  lemma FreeLeafExists(fs: Fs, p: Path, stuck: set<Path>, todo: set<Path>) returns (leaf: Path)
    requires todo == (set q | q in fs && p <= q && !Held(fs, stuck, q)) && todo != {}
    ensures leaf in todo && forall q :: q in fs && leaf <= q ==> q == leaf
  {
    var q :| q in todo;
    leaf := LeafExists(fs, q);
    assert p <= q <= leaf;
    assert forall s :: s in stuck && s in fs && leaf <= s ==> q <= s;
  }

  lemma RemoveFreeLeaf(fs: Fs, p: Path, stuck: set<Path>, leaf: Path)
    requires WellFormed(fs) && leaf in fs && p <= leaf && !Held(fs, stuck, leaf)
    requires forall q :: q in fs && leaf <= q ==> q == leaf
    ensures WellFormed(fs - {leaf}) && Prune(fs - {leaf}, p) == Prune(fs, p)
    ensures Cleared(fs - {leaf}, p, stuck) == Cleared(fs, p, stuck)
    ensures forall q :: q in fs - {leaf} ==> (Held(fs - {leaf}, stuck, q) <==> Held(fs, stuck, q))
  {
    var g := fs - {leaf};
    assert leaf !in stuck;
    forall q | q in g && q != [] ensures Parent(q) in g && g[Parent(q)].Dir? {
      assert Parent(q) <= q;
    }
    forall q | q in g ensures Held(g, stuck, q) <==> Held(fs, stuck, q) {
      if Held(fs, stuck, q) {
        var s :| s in stuck && s in fs && q <= s;
        assert s in g;
      }
    }
  }

  lemma TakeKeepsShape(fs: Fs, p: Path)
    requires WellFormed(fs) && p in fs && !fs[p].Dir?
    ensures WellFormed(fs - {p})
  {
    forall q | q in fs - {p} && q != [] ensures Parent(q) in fs - {p} && (fs - {p})[Parent(q)].Dir? {
      assert Parent(q) in fs && fs[Parent(q)].Dir?;
    }
  }

  lemma RenameKeepsShape(fs: Fs, src: Path, dst: Path)
    requires WellFormed(fs) && Disjoint(src, dst) && dst != []
    requires Parent(dst) in fs && fs[Parent(dst)].Dir? && src in fs
    ensures WellFormed(Renamed(fs, src, dst))
  {
    var g := Renamed(fs, src, dst);
    var t := Subtree(fs, src);
    forall p | p in g && p != [] ensures Parent(p) in g && g[Parent(p)].Dir? {
      GraftAt(Prune(fs, src), dst, t, p);
      GraftAt(Prune(fs, src), dst, t, Parent(p));
      assert Parent(p) <= p;
      if dst <= p {
        if p == dst {
          ParentOutside(dst, src);
        } else {
          var r := p[|dst|..];
          assert Parent(p)[|dst|..] == Parent(r) && dst <= Parent(p);
          SubtreeAt(fs, src, r);
          SubtreeAt(fs, src, Parent(r));
          assert Parent(src + r) == src + Parent(r);
        }
      } else {
        assert p in fs && !(src <= p);
      }
    }
  }

  lemma RenameEffect(fs: Fs, src: Path, dst: Path)
    requires WellFormed(fs) && Disjoint(src, dst)
    ensures var g := Renamed(fs, src, dst);
            && Subtree(g, dst) == Subtree(fs, src) && src !in g
            && Prune(Prune(g, src), dst) == Prune(Prune(fs, src), dst)
  {
    var g := Renamed(fs, src, dst);
    GraftTree(Prune(fs, src), dst, Subtree(fs, src));
    GraftAt(Prune(fs, src), dst, Subtree(fs, src), src);
    PruneCommutes(g, src, dst);
    PruneCommutes(fs, src, dst);
    PruneTwice(fs, src, dst);
  }

  lemma PruneBoth(a: Fs, b: Fs, src: Path, dst: Path)
    requires Prune(a, dst) == Prune(b, dst)
    ensures Prune(Prune(a, src), dst) == Prune(Prune(b, src), dst)
  {
    PruneCommutes(a, src, dst);
    PruneCommutes(b, src, dst);
  }

  lemma PruneCommutes(fs: Fs, p: Path, q: Path)
    ensures Prune(Prune(fs, p), q) == Prune(Prune(fs, q), p)
  {
  }

  lemma PruneTwice(fs: Fs, p: Path, q: Path)
    ensures Prune(Prune(Prune(fs, p), q), p) == Prune(Prune(fs, p), q)
  {
  }
}
