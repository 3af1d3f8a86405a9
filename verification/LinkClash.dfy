/** Links of the archive in the way of the site, and the disk a rollback begins with if
    nothing stale was aside. */
module LinkClash {
  import opened FileTree
  import opened DiskState
  import opened CopyRun
  import opened MovePath
  import opened Restore
  import opened OpenedLink
  import opened RestoreLoss

  /** The archive has a link where the site has a file or directory. */
  predicate Clashes(site: Tree, restored: Tree, r: Path) {
    r in site && r in restored && restored[r].Link? && (site[r].File? || site[r].Dir?)
  }

  lemma AlikeOne(a: Fs, b: Fs, p: Path, w: Places)
    requires Prune(a, p) == Prune(b, p) && (p == w.root || p == w.staged || p == w.extracted)
    ensures AlikeElsewhere(a, b, w)
  {
    forall q | Elsewhere(w, q) ensures (q in a <==> q in b) && (q in a ==> a[q] == b[q]) {
      PruneFrame(a, b, p, q);
    }
  }

  lemma AlikeTwo(a: Fs, b: Fs, p: Path, q: Path, w: Places)
    requires Prune(Prune(a, p), q) == Prune(Prune(b, p), q)
    requires (p == w.root || p == w.staged || p == w.extracted) && (q == w.root || q == w.staged || q == w.extracted)
    ensures AlikeElsewhere(a, b, w)
  {
    forall x | Elsewhere(w, x) ensures (x in a <==> x in b) && (x in a ==> a[x] == b[x]) {
      PruneFrame(Prune(a, p), Prune(b, p), q, x);
      assert x in a <==> x in Prune(a, p);
      assert x in b <==> x in Prune(b, p);
    }
  }

  lemma AlikeTrans(a: Fs, b: Fs, c: Fs, w: Places)
    requires AlikeElsewhere(a, b, w) && AlikeElsewhere(b, c, w)
    ensures AlikeElsewhere(a, c, w)
  {
  }

  /** The disk when the rollback's move begins, if nothing stale was aside: elsewhere as at
      the start, the site or its copy aside, and a part of the archive in its place. */
  lemma RollbackDisk(fs: Fs, w: Places, ls: Listing, x: SwapFaults)
    requires CanRestore(fs, w) && Lists(ls) && w.staged !in fs && RollsBack(fs, w, ls, x)
    ensures var f3 := BeforeRollback(fs, w, ls, x);
            && WellFormed(f3) && AlikeElsewhere(fs, f3, w) && Parent(w.root) in f3 && f3[Parent(w.root)].Dir?
            && MovedExactly(Subtree(f3, w.staged), Subtree(fs, w.root))
            && LeftByInstall(Subtree(f3, w.root), Subtree(fs, w.extracted))
  {
    var f2 := Staging(fs, w, ls, x).fs;
    ParentOutside(w.staged, w.root);
    ClearedAbsent(fs, w.staged, x.stale);
    FreshMoveOpensNothing(fs, w.root, w.staged, ls, x.stage);
    Staged(fs, w, ls, x);
    SweptMove(fs, w.root, w.staged, x.stale, ls, x.stage);
    AlikeTwo(fs, f2, w.root, w.staged, w);
    AfterInstall(f2, w, ls, x);
    AlikeTrans(fs, f2, BeforeRollback(fs, w, ls, x), w);
  }

  lemma AfterInstall(fs: Fs, w: Places, ls: Listing, x: SwapFaults)
    requires WellFormed(fs) && w.root != [] && w.root !in fs && Disjoint(w.extracted, w.root) && Lists(ls)
    requires Disjoint(w.extracted, w.staged) && Disjoint(w.root, w.staged)
    requires Parent(w.root) in fs && fs[Parent(w.root)].Dir? && !Installing(fs, w, ls, x).end.Done?
    ensures var f3 := Cleared(Installing(fs, w, ls, x).fs, w.root, x.failed);
            && WellFormed(f3) && AlikeElsewhere(fs, f3, w) && Parent(w.root) in f3 && f3[Parent(w.root)].Dir?
            && Subtree(f3, w.staged) == Subtree(fs, w.staged)
            && LeftByInstall(Subtree(f3, w.root), Subtree(fs, w.extracted))
            && SubtreeOf(Subtree(f3, w.extracted), Subtree(fs, w.extracted))
               && (w.extracted in fs ==> w.extracted in f3)
  {
    var i := Installing(fs, w, ls, x);
    FreshMoveOpensNothing(fs, w.extracted, w.root, ls, x.install);
    Installed(fs, w, ls, x);
    MovedOntoNothing(fs, w.extracted, w.root, ls, x.install);
    Swept(i.fs, w.staged, w.root, x.failed);
    ArchiveRemains(fs, w, ls, x);
    Swept(i.fs, w.extracted, w.root, x.failed);
    AlikeTwo(fs, i.fs, w.extracted, w.root, w);
    AlikeOne(i.fs, Cleared(i.fs, w.root, x.failed), w.root, w);
    AlikeTrans(fs, i.fs, Cleared(i.fs, w.root, x.failed), w);
  }

  /** And a part of the archive where it was. */
  lemma ArchiveAtRollback(fs: Fs, w: Places, ls: Listing, x: SwapFaults)
    requires CanRestore(fs, w) && Lists(ls) && w.staged !in fs && RollsBack(fs, w, ls, x)
    ensures var f3 := BeforeRollback(fs, w, ls, x);
            SubtreeOf(Subtree(f3, w.extracted), Subtree(fs, w.extracted)) && (w.extracted in fs ==> w.extracted in f3)
  {
    var f2 := Staging(fs, w, ls, x).fs;
    StagesFresh(fs, w, ls, x);
    Staged(fs, w, ls, x);
    RootOfTree(fs, w.extracted);
    RootOfTree(f2, w.extracted);
    AfterInstall(f2, w, ls, x);
  }

  /** A failed install leaves a part of the archive where it was. */
  lemma ArchiveRemains(fs: Fs, w: Places, ls: Listing, x: SwapFaults)
    requires WellFormed(fs) && w.root != [] && Disjoint(w.extracted, w.root) && Lists(ls)
    requires Parent(w.root) in fs && fs[Parent(w.root)].Dir?
    requires !Installing(fs, w, ls, x).end.Done? && !Installing(fs, w, ls, x).through
    ensures var i := Installing(fs, w, ls, x);
            SubtreeOf(Subtree(i.fs, w.extracted), Subtree(fs, w.extracted))
              && (w.extracted in fs ==> w.extracted in i.fs)
  {
    var i := Installing(fs, w, ls, x);
    MoveResult(fs, w.extracted, w.root, ls, x.install);
    RootOfTree(fs, w.extracted);
    RootOfTree(i.fs, w.extracted);
  }

  /** A loss goes back to a link of the archive that opened where the site has a file or
      directory; if what it points to stays out of the three places, it can be seen to
      open before the restore begins. */
  lemma LossHasOpenClash(fs: Fs, w: Places, ls: Listing, x: SwapFaults) returns (r: Path)
    requires CanRestore(fs, w) && Lists(ls) && w.staged !in fs && Lost(fs, w, ls, x)
    ensures Clashes(Subtree(fs, w.root), Subtree(fs, w.extracted), r)
    ensures StaysOut(fs, Subtree(fs, w.extracted)[r].target, MAX_LINK_HOPS - 1, w) ==>
              Opens(fs, Subtree(fs, w.extracted)[r].target, Subtree(fs, w.root)[r])
  {
    LossNeedsOpening(fs, w, ls, x);
    StagesFresh(fs, w, ls, x);
    LostInRollback(fs, w, ls, x);
    RollbackDisk(fs, w, ls, x);
    var f3 := BeforeRollback(fs, w, ls, x);
    r := ClashOnDisk(fs, f3, w, Conditions(ls, x.rollback.cut), x.rollback.steps);
  }

  lemma StagesFresh(fs: Fs, w: Places, ls: Listing, x: SwapFaults)
    requires CanRestore(fs, w) && Lists(ls) && w.staged !in fs
    ensures !Staging(fs, w, ls, x).through
  {
    ParentOutside(w.staged, w.root);
    ClearedAbsent(fs, w.staged, x.stale);
    FreshMoveOpensNothing(fs, w.root, w.staged, ls, x.stage);
  }

  lemma ClashOnDisk(fs: Fs, f3: Fs, w: Places, e: Conditions, steps: nat) returns (r: Path)
    requires CanRestore(fs, w) && Lists(e.ls) && WellFormed(f3) && AlikeElsewhere(fs, f3, w)
    requires Parent(w.root) in f3 && f3[Parent(w.root)].Dir? && MovedExactly(Subtree(f3, w.staged), Subtree(fs, w.root))
    requires LeftByInstall(Subtree(f3, w.root), Subtree(fs, w.extracted))
             && CopyNode(f3, w.staged, w.root, e, steps).through
    ensures Clashes(Subtree(fs, w.root), Subtree(fs, w.extracted), r) && r in Subtree(f3, w.root)
    ensures StaysOut(fs, Subtree(fs, w.extracted)[r].target, MAX_LINK_HOPS - 1, w) ==>
              Opens(fs, Subtree(fs, w.extracted)[r].target, Subtree(fs, w.root)[r])
  {
    var g;
    r, g := FirstOpened(f3, w.staged, w.root, e, steps);
    SubtreeAt(f3, w.staged, r);
    SubtreeAt(f3, w.root, r);
    SameKinds(Subtree(f3, w.staged), Subtree(fs, w.root), r);
    GaveWay(g, w.staged + r, w.root + r);
    AlikeOne(f3, g, w.root, w);
    AlikeTrans(fs, f3, g, w);
    OpenedBefore(fs, g, w, Subtree(fs, w.extracted)[r].target, g[w.staged + r], Subtree(fs, w.root)[r]);
  }

  lemma OpenedBefore(fs: Fs, g: Fs, w: Places, target: Path, copied: Node, node: Node)
    requires w.extracted != [] && w.root != [] && w.staged != [] && AlikeElsewhere(fs, g, w) && Opens(g, target, copied)
    requires (copied.File? <==> node.File?) && (copied.Dir? <==> node.Dir?)
    ensures StaysOut(fs, target, MAX_LINK_HOPS - 1, w) ==> Opens(fs, target, node)
  {
    if StaysOut(fs, target, MAX_LINK_HOPS - 1, w) { OpensAlike(fs, g, target, copied, w); }
  }

  lemma SameKinds(now: Tree, t: Tree, r: Path)
    requires MovedExactly(now, t) && r in now
    ensures r in t && (now[r].File? <==> t[r].File?) && (now[r].Dir? <==> t[r].Dir?)
  {
  }
}
