/** What copying one tree over another produces, node by node. */
module CopyTree {
  import opened FileTree

  /** The agent runs as root; whatever it creates belongs to it. */
  const AGENT := Owner(0, 0)

  function PermOnly(m: Mode): Mode {
    Mode(m.perm, false, false, false)
  }

  /** The node a copy creates at a fresh path: data, permission bits and link
      target survive; owner and special bits do not. */
  function ImageNode(n: Node): Node {
    match n
    case Dir(_, m) => Dir(AGENT, PermOnly(m))
    case File(c, _, m) => File(c, AGENT, PermOnly(m))
    case Link(t, _) => Link(t, AGENT)
    case Special(_, _) => n
  }

  function CopyImage(t: Tree): Tree {
    map r | r in t :: ImageNode(t[r])
  }

  /** The node left where s was copied over prev: an existing directory or file
      keeps its owner and mode. */
  function OntoNode(prev: Node, s: Node): Node {
    if prev.Dir? && s.Dir? then prev
    else if prev.File? && s.File? then prev.(content := s.content)
    else ImageNode(s)
  }

  /** r is the top of the tree or lies in a branch already copied. */
  predicate Visited(r: Path, done: set<string>) {
    r == [] || r[0] in done
  }

  /** Tree d after the top and the done branches of s were copied over it. */
  function MergeOn(d: Tree, s: Tree, done: set<string>): Tree {
    map r | r in d.Keys + s.Keys && (r in d || Visited(r, done)) ::
      if r in s && Visited(r, done) then (if r in d then OntoNode(d[r], s[r]) else ImageNode(s[r])) else d[r]
  }

  /** Tree d after all of s was copied over it. */
  function Merge(d: Tree, s: Tree): Tree {
    map r | r in d.Keys + s.Keys ::
      if r in s then (if r in d then OntoNode(d[r], s[r]) else ImageNode(s[r])) else d[r]
  }

  /** What a copy makes of a node where nothing was: the data, link target and the nine
      permission bits of the original, none of its special bits, owned by root. */
  predicate FreshCopyOf(n: Node, s: Node) {
    && SameData(n, s) && n.owner == Owner(0, 0)
    && (!n.Link? ==> n.mode.perm == s.mode.perm && !n.mode.setuid && !n.mode.setgid && !n.mode.sticky)
  }

  /** now is d after a complete copy of s over it, node by node: what s does not have is
      as it was, and what both have took over the data and kept owner and mode. */
  ghost predicate CopiedOver(now: Tree, d: Tree, s: Tree) {
    && now.Keys == d.Keys + s.Keys
    && (forall r :: r in d && r !in s ==> now[r] == d[r])
    && (forall r :: r in s && r !in d ==> FreshCopyOf(now[r], s[r]))
    && (forall r :: r in s && r in d ==> SameData(now[r], s[r]) && SameOwnerAndMode(now[r], d[r]))
  }

  predicate SameOwnerAndMode(m: Node, n: Node) {
    m.owner == n.owner && (!m.Link? && !n.Link? ==> m.mode == n.mode)
  }

  /** A node that an interrupted copy of s may have left behind. */
  predicate PartOf(n: Node, s: Node) {
    match s
    case Dir(_, _) => n.Dir?
    case File(c, _, _) => n.File? && n.content <= c
    case Link(t, _) => n.Link? && n.target == t
    case Special(_, _) => n == s  // never copied
  }

  /** Tree d after an interrupted copy of s over d0: nothing is missing, and
      whatever is new or changed is part of s. */
  ghost predicate PartialMerge(d: Tree, d0: Tree, s: Tree) {
    && (forall r :: r in d0 ==> r in d)
    && forall r :: r in d ==> (r in d0 && d[r] == d0[r]) || (r in s && PartOf(d[r], s[r]))
  }

  predicate IsKeptByCopy(n: Node) {
    match n
    case Dir(o, m) => o == AGENT && m == PermOnly(m)
    case File(_, o, m) => o == AGENT && m == PermOnly(m)
    case Link(_, o) => o == AGENT
    case Special(_, _) => true
  }

  /** A copy is an exact copy just when every node already belonged to the agent
      and carried permission bits only. */
  lemma CopyIsExactIff(t: Tree)
    ensures CopyImage(t) == t <==> forall r :: r in t ==> IsKeptByCopy(t[r])
  {
    if CopyImage(t) == t {
      forall r | r in t ensures IsKeptByCopy(t[r]) {
        assert CopyImage(t)[r] == t[r];
      }
    }
  }

  lemma CopyImageIsStable(t: Tree)
    ensures CopyImage(CopyImage(t)) == CopyImage(t)
  {
  }

  lemma MergeOntoNothing(s: Tree)
    ensures Merge(map[], s) == CopyImage(s)
  {
  }

  /** Whatever was in the way, a completed copy holds all of s's data. */
  lemma MergeCovers(d: Tree, s: Tree)
    ensures Covers(Merge(d, s), s)
  {
  }

  lemma CoversTransitive(a: Tree, b: Tree, c: Tree)
    requires Covers(a, b) && Covers(b, c)
    ensures Covers(a, c)
  {
  }

  // ---- Assembling a directory copy from the copies of its entries ----------

  function ChildNames(fs: Fs, p: Path): set<string> {
    set q | q in fs && p <= q && |q| == |p| + 1 :: q[|p|]
  }

  lemma ChildNamed(fs: Fs, p: Path, n: string)
    ensures n in ChildNames(fs, p) <==> p + [n] in fs
  {
    if n in ChildNames(fs, p) {
      var q :| q in fs && p <= q && |q| == |p| + 1 && q[|p|] == n;
      assert q == p + [n];
    }
    if p + [n] in fs {
      assert p <= p + [n] && (p + [n])[|p|] == n;
    }
  }

  lemma ChildOffset(p: Path, r: Path)
    requires r != []
    ensures p + r == (p + [r[0]]) + r[1..]
    ensures p + [r[0]] <= p + r
  {
    assert r == [r[0]] + r[1..];
    assert p + r == (p + [r[0]]) + r[1..];
  }

  lemma NotUnderChild(p: Path, n: string, r: Path)
    requires r == [] || r[0] != n
    ensures !(p + [n] <= p + r)
  {
    if r != [] {
      assert (p + r)[|p|] == r[0];
    }
  }

  /** branch is what t holds under its entry n. */
  ghost predicate IsBranch(branch: Tree, t: Tree, n: string) {
    forall r :: r != [] && r[0] == n ==>
      (r in t <==> r[1..] in branch) && (r in t ==> t[r] == branch[r[1..]])
  }

  ghost predicate SameElsewhere(a: Tree, b: Tree, n: string) {
    forall r :: r == [] || r[0] != n ==> (r in a <==> r in b) && (r in a ==> a[r] == b[r])
  }

  lemma ChildIsBranch(fs: Fs, p: Path, n: string)
    ensures IsBranch(Subtree(fs, p + [n]), Subtree(fs, p), n)
  {
    var branch, t := Subtree(fs, p + [n]), Subtree(fs, p);
    forall r | r != [] && r[0] == n
      ensures (r in t <==> r[1..] in branch) && (r in t ==> t[r] == branch[r[1..]])
    {
      ChildOffset(p, r);
      SubtreeAt(fs, p, r);
      SubtreeAt(fs, p + [n], r[1..]);
    }
  }

  lemma ConfinedToChild(a: Fs, b: Fs, p: Path, n: string)
    requires Prune(a, p + [n]) == Prune(b, p + [n])
    ensures SameElsewhere(Subtree(a, p), Subtree(b, p), n)
  {
    var x, y := Subtree(a, p), Subtree(b, p);
    forall r | r == [] || r[0] != n
      ensures (r in x <==> r in y) && (r in x ==> x[r] == y[r])
    {
      NotUnderChild(p, n, r);
      PruneFrame(a, b, p + [n], p + r);
      SubtreeAt(a, p, r);
      SubtreeAt(b, p, r);
    }
  }

  /** Copying one more entry of s extends the merge by that branch. */
  lemma MergeChild(d0: Tree, s: Tree, a: Tree, b: Tree, d0n: Tree, sn: Tree, bn: Tree, n: string, done: set<string>)
    requires IsBranch(d0n, d0, n) && IsBranch(sn, s, n) && IsBranch(bn, b, n)
    requires n !in done && a == MergeOn(d0, s, done)
    requires SameElsewhere(a, b, n) && bn == Merge(d0n, sn)
    ensures b == MergeOn(d0, s, done + {n})
  {
    var m := MergeOn(d0, s, done + {n});
    forall r
      ensures r in b <==> r in m
      ensures r in m ==> r in b && b[r] == m[r]
    {
      if r == [] || r[0] != n {
        assert r in b <==> r in a;
      } else {
        assert r in b <==> r[1..] in bn;
        assert r in s <==> r[1..] in sn;
        assert r in d0 <==> r[1..] in d0n;
      }
    }
  }

  /** An interrupted copy of one entry is an interrupted copy of the whole. */
  lemma PartialChild(d0: Tree, s: Tree, a: Tree, b: Tree, d0n: Tree, sn: Tree, bn: Tree, n: string, done: set<string>)
    requires IsBranch(d0n, d0, n) && IsBranch(sn, s, n) && IsBranch(bn, b, n)
    requires n !in done && a == MergeOn(d0, s, done)
    requires SameElsewhere(a, b, n) && PartialMerge(bn, d0n, sn)
    ensures PartialMerge(b, d0, s)
  {
    MergeOnIsPartial(d0, s, done);
    forall r
      ensures r in d0 ==> r in b
      ensures r in b ==> (r in d0 && b[r] == d0[r]) || (r in s && PartOf(b[r], s[r]))
    {
      if r == [] || r[0] != n {
        assert r in b <==> r in a;
      } else {
        assert r in b <==> r[1..] in bn;
        assert r in s <==> r[1..] in sn;
        assert r in d0 <==> r[1..] in d0n;
      }
    }
  }

  /** Entries not yet copied still look as they did at the start. */
  lemma UnvisitedChild(d0: Tree, s: Tree, a: Tree, d0n: Tree, an: Tree, n: string, done: set<string>)
    requires IsBranch(d0n, d0, n) && IsBranch(an, a, n)
    requires n !in done && a == MergeOn(d0, s, done)
    ensures an == d0n
  {
    forall r
      ensures r in an <==> r in d0n
      ensures r in d0n ==> r in an && an[r] == d0n[r]
    {
      var k := [n] + r;
      assert k[1..] == r;
      assert k in a <==> k[1..] in an;
      assert k in d0 <==> k[1..] in d0n;
    }
  }

  lemma MergeOnIsPartial(d: Tree, s: Tree, done: set<string>)
    ensures PartialMerge(MergeOn(d, s, done), d, s)
  {
  }

  lemma MergeComplete(fs: Fs, src: Path, d: Tree)
    requires WellFormed(fs)
    ensures MergeOn(d, Subtree(fs, src), ChildNames(fs, src)) == Merge(d, Subtree(fs, src))
  {
    var s := Subtree(fs, src);
    forall r | r in s && r != [] ensures r[0] in ChildNames(fs, src) {
      SubtreeAt(fs, src, r);
      ChildOffset(src, r);
      PrefixClosed(fs, src + [r[0]], src + r);
      ChildNamed(fs, src, r[0]);
    }
  }
}
