/** sanitizeRestoredTree: re-own an extracted archive, drop special files and
    clear set-id bits. */
module Sanitize {
  import opened FileTree
  import opened CopyTree
  import opened DiskState

  /** Chmod is called only for set-id nodes, and then clears the sticky bit too. */
  function SafeMode(m: Mode): Mode {
    if m.setuid || m.setgid then PermOnly(m) else m
  }

  function Owned(n: Node, o: Owner): Node {
    n.(owner := o)
  }

  function SafeNode(n: Node, o: Owner): Node {
    match n
    case Dir(_, m) => Dir(o, SafeMode(m))
    case File(c, _, m) => File(c, o, SafeMode(m))
    case Link(t, _) => Link(t, o)
    case Special(_, m) => Special(o, SafeMode(m))
  }

  /** t with the nodes in done already treated. */
  function SanitizedOn(t: Tree, o: Owner, done: set<Path>): Tree {
    map r | r in t && !(r in done && t[r].Special?) :: if r in done then SafeNode(t[r], o) else t[r]
  }

  function Sanitized(t: Tree, o: Owner): Tree {
    map r | r in t && !t[r].Special? :: SafeNode(t[r], o)
  }

  /** What sanitizing makes of an ordinary node: the same data and permission bits, no
      set-id bit, owned by o. Where a set-id bit was, the sticky bit is gone too. */
  predicate MadeSafe(n: Node, s: Node, o: Owner) {
    && SameData(n, s) && n.owner == o
    && (!n.Link? && !s.Link? ==>
          && n.mode.perm == s.mode.perm && !n.mode.setuid && !n.mode.setgid
          && n.mode.sticky == (s.mode.sticky && !s.mode.setuid && !s.mode.setgid))
  }

  /** Each ordinary node, made safe, and nothing else. */
  ghost predicate MadeSafeTree(now: Tree, t: Tree, o: Owner) {
    && (forall r :: r in now <==> r in t && !t[r].Special?)
    && forall r :: r in now ==> MadeSafe(now[r], t[r], o)
  }

  lemma SanitizedNodes(t: Tree, o: Owner)
    ensures MadeSafeTree(Sanitized(t, o), t, o)
  {
  }

  predicate IsSafe(n: Node, o: Owner) {
    !n.Special? && n.owner == o && (n.Link? || (!n.mode.setuid && !n.mode.setgid))
  }

  /** The result is safe to install, holds the data of every ordinary node, and
      is what a second pass would produce again. */
  lemma SanitizedIsSafe(t: Tree, o: Owner)
    ensures forall r :: r in Sanitized(t, o) ==> IsSafe(Sanitized(t, o)[r], o)
    ensures Covers(Sanitized(t, o), map r | r in t && !t[r].Special? :: t[r])
    ensures Sanitized(t, o).Keys <= t.Keys
    ensures Sanitized(Sanitized(t, o), o) == Sanitized(t, o)
  {
    var s := Sanitized(t, o);
    forall r | r in s ensures Sanitized(s, o)[r] == s[r] {
      assert !s[r].Special?;
    }
  }

  lemma PutBelow(fs: Fs, p: Path, r: Path, n: Node)
    ensures Prune(fs[p + r := n], p) == Prune(fs, p)
    ensures Subtree(fs[p + r := n], p) == Subtree(fs, p)[r := n]
  {
    var g := fs[p + r := n];
    assert p <= p + r;
    forall x
      ensures x in Subtree(g, p) <==> x in Subtree(fs, p)[r := n]
      ensures x in Subtree(g, p) ==> Subtree(g, p)[x] == Subtree(fs, p)[r := n][x]
    {
      SubtreeAt(g, p, x);
      SubtreeAt(fs, p, x);
      if p + x == p + r { assert x == (p + x)[|p|..] == r; }
    }
  }

  lemma TakeBelow(fs: Fs, p: Path, r: Path)
    requires WellFormed(fs) && p + r in fs && !fs[p + r].Dir?
    ensures WellFormed(fs - {p + r})
    ensures Prune(fs - {p + r}, p) == Prune(fs, p)
    ensures Subtree(fs - {p + r}, p) == Subtree(fs, p) - {r}
  {
    TakeKeepsShape(fs, p + r);
    var g := fs - {p + r};
    assert p <= p + r;
    forall x
      ensures x in Subtree(g, p) <==> x in Subtree(fs, p) && x != r
      ensures x in Subtree(g, p) ==> Subtree(g, p)[x] == Subtree(fs, p)[x]
    {
      SubtreeAt(g, p, x);
      SubtreeAt(fs, p, x);
      if p + x == p + r { assert x == (p + x)[|p|..] == r; }
    }
  }

  lemma PutTwice(fs: Fs, p: Path, m: Node, n: Node)
    ensures fs[p := m][p := n] == fs[p := n]
  {
  }

  /** Where the walk fails: at nodes it cannot look at, remove or give to the owner, and at
      nodes whose mode it cannot change. */
  datatype WalkFaults = WalkFaults(visit: set<Path>, chmod: set<Path>)

  predicate HasSetId(n: Node) {
    !n.Link? && (n.mode.setuid || n.mode.setgid)
  }

  predicate Visitable(x: WalkFaults, p: Path, n: Node) {
    p !in x.visit && (!n.Special? && HasSetId(n) ==> p !in x.chmod)
  }

  /** One node of the walk. */
  method SanitizeNode(disk: Disk, p: Path, owner: Owner, x: WalkFaults, ghost base: Path, ghost r: Path)
    returns (ok: bool)
    requires disk.Valid() && p == base + r && p != [] && p in disk.nodes
    modifies disk
    ensures disk.Valid() && Prune(disk.nodes, base) == Prune(old(disk.nodes), base)
    ensures old(disk.history) <= disk.history && Confined(disk.history, |old(disk.history)|, old(disk.nodes), base)
    ensures ok == Visitable(x, p, old(disk.nodes)[p])
    ensures ok && old(disk.nodes)[p].Special? ==> Subtree(disk.nodes, base) == Subtree(old(disk.nodes), base) - {r}
    ensures ok && !old(disk.nodes)[p].Special? ==>
      Subtree(disk.nodes, base) == Subtree(old(disk.nodes), base)[r := SafeNode(old(disk.nodes)[p], owner)]
  {
    if p in x.visit { return false; }
    var info := disk.nodes[p];
    ghost var fs := disk.nodes;
    if info.Special? {
      TakeBelow(fs, base, r);
      disk.Take(p);
      return true;
    }
    PutBelow(fs, base, r, Owned(info, owner));
    disk.Put(p, Owned(info, owner));
    if HasSetId(info) {
      if p in x.chmod { return false; }
      PutTwice(fs, p, Owned(info, owner), SafeNode(info, owner));
      PutBelow(fs, base, r, SafeNode(info, owner));
      disk.Put(p, SafeNode(info, owner));
    }
    return true;
  }

  /** No node of the tree at root is one the walk fails at. */
  ghost predicate WalkSucceeds(x: WalkFaults, fs: Fs, root: Path) {
    forall r :: r in Subtree(fs, root) ==> Visitable(x, root + r, Subtree(fs, root)[r])
  }

  /** The walk. The order of the visits does not matter: each visit changes the
      visited node only. */
  method SanitizeTree(disk: Disk, root: Path, owner: Owner, x: WalkFaults) returns (ok: bool)
    requires disk.Valid() && root != []
    modifies disk
    ensures disk.Valid() && Prune(disk.nodes, root) == Prune(old(disk.nodes), root)
    ensures old(disk.history) <= disk.history && Confined(disk.history, |old(disk.history)|, old(disk.nodes), root)
    ensures ok <==> WalkSucceeds(x, old(disk.nodes), root)
    ensures ok ==> Subtree(disk.nodes, root) == Sanitized(Subtree(old(disk.nodes), root), owner)
    ensures ok ==> MadeSafeTree(Subtree(disk.nodes, root), Subtree(old(disk.nodes), root), owner)
  {
    ghost var f0, t := disk.nodes, Subtree(disk.nodes, root);
    var todo := Rels(disk.nodes, root);
    ghost var all := todo;
    NoneTreated(t, owner, all);
    AllListed(f0, root);
    while todo != {}
      invariant disk.Valid() && Prune(disk.nodes, root) == Prune(f0, root) && todo <= all
      invariant old(disk.history) <= disk.history && Confined(disk.history, |old(disk.history)|, f0, root)
      invariant Subtree(disk.nodes, root) == SanitizedOn(t, owner, all - todo)
      invariant forall r :: r in t && r !in todo ==> Visitable(x, root + r, t[r])
      decreases todo
    {
      var r :| r in todo;
      ghost var h, before := disk.history, disk.nodes;
      VisitReady(f0, before, root, owner, all, todo, r);
      ok := SanitizeNode(disk, root + r, owner, x, root, r);
      ConfinedWiden(disk.history, |h|, before, f0, root, root);
      ConfinedJoin(h, disk.history, |old(disk.history)|, f0, root);
      if !ok { return false; }
      OneMoreTreated(t, owner, all, todo, r);
      todo := todo - {r};
    }
    AllTreated(f0, root, owner);
    SanitizedNodes(t, owner);
    return true;
  }

  lemma VisitReady(f0: Fs, now: Fs, root: Path, o: Owner, all: set<Path>, todo: set<Path>, r: Path)
    requires all == Rels(f0, root) && r in todo && todo <= all
    requires Subtree(now, root) == SanitizedOn(Subtree(f0, root), o, all - todo)
    ensures r in Subtree(f0, root) && root + r in now && now[root + r] == Subtree(f0, root)[r]
  {
    var q :| q in f0 && root <= q && r == q[|root|..];
    UnderIsOffset(root, q);
    SubtreeAt(f0, root, r);
    SubtreeAt(now, root, r);
  }

  lemma AllListed(fs: Fs, root: Path)
    ensures forall r :: r in Subtree(fs, root) ==> r in Rels(fs, root)
  {
  }

  lemma NoneTreated(t: Tree, o: Owner, all: set<Path>)
    ensures t == SanitizedOn(t, o, all - all)
  {
  }

  lemma OneMoreTreated(t: Tree, o: Owner, all: set<Path>, todo: set<Path>, r: Path)
    requires todo <= all && r in todo && r in t
    ensures t[r].Special? ==> SanitizedOn(t, o, all - todo) - {r} == SanitizedOn(t, o, all - (todo - {r}))
    ensures !t[r].Special? ==>
              SanitizedOn(t, o, all - todo)[r := SafeNode(t[r], o)] == SanitizedOn(t, o, all - (todo - {r}))
  {
  }

  lemma AllTreated(f0: Fs, root: Path, o: Owner)
    ensures SanitizedOn(Subtree(f0, root), o, Rels(f0, root) - {}) == Sanitized(Subtree(f0, root), o)
  {
    forall r | r in Subtree(f0, root) ensures r in Rels(f0, root) {
      SubtreeAt(f0, root, r);
      assert root <= root + r && (root + r)[|root|..] == r;
    }
  }
}
