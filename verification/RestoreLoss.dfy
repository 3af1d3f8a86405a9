/** When a restore can lose the site: exactly when a copy between the site's two
    places can open a symlink that lies in its way and still complete. */
module RestoreLoss {
  import opened FileTree
  import opened DiskState
  import opened CopyRun
  import opened MovePath
  import opened Restore
  import opened OpenedLink

  /** With these failures the restore ends in an error and the site is whole nowhere. */
  ghost predicate Lost(fs: Fs, w: Places, ls: Listing, x: SwapFaults) {
    var o := Swap(fs, w, ls, x);
    o.res != Restored && !SiteKept(o.fs, w.root, w.staged, Subtree(fs, w.root))
  }

  ghost predicate Loses(fs: Fs, w: Places, ls: Listing) {
    exists x :: Lost(fs, w, ls, x)
  }

  function StagingCopy(fs: Fs, w: Places, ls: Listing, x: SwapFaults): Copied {
    CopyOf(Cleared(fs, w.staged, x.stale), w.root, w.staged, ls, x.stage)
  }

  /** The disk when the rollback's move begins. */
  function BeforeRollback(fs: Fs, w: Places, ls: Listing, x: SwapFaults): Fs {
    Cleared(Installing(Staging(fs, w, ls, x).fs, w, ls, x).fs, w.root, x.failed)
  }

  function RollbackCopy(fs: Fs, w: Places, ls: Listing, x: SwapFaults): Copied {
    CopyOf(BeforeRollback(fs, w, ls, x), w.staged, w.root, ls, x.rollback)
  }

  predicate RollsBack(fs: Fs, w: Places, ls: Listing, x: SwapFaults) {
    var s := Staging(fs, w, ls, x);
    w.root in fs && s.end.Done? && !Installing(s.fs, w, ls, x).end.Done?
  }

  /** A copy that opened a link and did not deliver the site, although it completed or
      wrote into what it was copying. */
  ghost predicate Undelivered(c: Copied, src: Path, dst: Path, site: Tree) {
    c.through && !Covers(Subtree(c.fs, dst), site) && (c.ok || !Covers(Subtree(c.fs, src), site))
  }

  ghost predicate GoesWrong(fs: Fs, w: Places, ls: Listing, x: SwapFaults) {
    var site := Subtree(fs, w.root);
    || Undelivered(StagingCopy(fs, w, ls, x), w.root, w.staged, site)
    || (RollsBack(fs, w, ls, x) && Undelivered(RollbackCopy(fs, w, ls, x), w.staged, w.root, site))
  }

  /** The exact condition, for every request: some failures make it lose the site if and
      only if some failures make one of the two copies open a link and complete, or
      open a link and write into the only whole copy, without delivering the site. */
  lemma RestoreLosesIff(fs: Fs, w: Places, ls: Listing)
    requires CanRestore(fs, w) && Lists(ls)
    ensures Loses(fs, w, ls) <==> w.root in fs && exists x :: GoesWrong(fs, w, ls, x)
  {
    if Loses(fs, w, ls) {
      var x :| Lost(fs, w, ls, x);
      LostGoesWrong(fs, w, ls, x);
    }
    if w.root in fs && exists x :: GoesWrong(fs, w, ls, x) {
      var x :| GoesWrong(fs, w, ls, x);
      var x' := GoneWrongLoses(fs, w, ls, x);
    }
  }

  /** Without an opened link nothing is lost. */
  lemma LossNeedsOpening(fs: Fs, w: Places, ls: Listing, x: SwapFaults)
    requires CanRestore(fs, w) && Lists(ls) && Lost(fs, w, ls, x)
    ensures Swap(fs, w, ls, x).through && w.root in fs
  {
    var o, site := Swap(fs, w, ls, x), Subtree(fs, w.root);
    RootSeen(fs, w);
    if !o.through {
      SwapKeepsPromises(fs, w, ls, x);
      PromisedKeeps(o, site, Subtree(fs, w.extracted), w.root in fs, w);
    }
    if w.root !in fs { SubtreeOfAbsent(fs, w.root); }
  }

  lemma LostGoesWrong(fs: Fs, w: Places, ls: Listing, x: SwapFaults)
    requires CanRestore(fs, w) && Lists(ls) && Lost(fs, w, ls, x)
    ensures w.root in fs && GoesWrong(fs, w, ls, x)
  {
    LossNeedsOpening(fs, w, ls, x);
    if Staging(fs, w, ls, x).through {
      LostInStaging(fs, w, ls, x);
    } else {
      LostInRollback(fs, w, ls, x);
    }
  }

  lemma LostInStaging(fs: Fs, w: Places, ls: Listing, x: SwapFaults)
    requires CanRestore(fs, w) && Lists(ls) && Lost(fs, w, ls, x) && w.root in fs && Staging(fs, w, ls, x).through
    ensures Undelivered(StagingCopy(fs, w, ls, x), w.root, w.staged, Subtree(fs, w.root))
  {
    StagingOpened(fs, w, ls, x);
    RootSeen(fs, w);
    if !StagingCopy(fs, w, ls, x).ok {
      assert Swap(fs, w, ls, x).fs == StagingCopy(fs, w, ls, x).fs;
    }
  }

  lemma StagingOpened(fs: Fs, w: Places, ls: Listing, x: SwapFaults)
    requires CanRestore(fs, w) && Lists(ls) && w.root in fs && Staging(fs, w, ls, x).through
    ensures var c := StagingCopy(fs, w, ls, x); c.through && !Covers(Subtree(c.fs, w.staged), Subtree(fs, w.root))
  {
    var f1 := Cleared(fs, w.staged, x.stale);
    ParentOutside(w.staged, w.root);
    Swept(fs, w.root, w.staged, x.stale);
    OpenedNeverCovers(f1, w.root, w.staged, Conditions(ls, x.stage.cut), x.stage.steps);
  }

  lemma LostInRollback(fs: Fs, w: Places, ls: Listing, x: SwapFaults)
    requires CanRestore(fs, w) && Lists(ls) && Lost(fs, w, ls, x) && w.root in fs
    requires !Staging(fs, w, ls, x).through && Swap(fs, w, ls, x).through
    ensures RollsBack(fs, w, ls, x) && Undelivered(RollbackCopy(fs, w, ls, x), w.staged, w.root, Subtree(fs, w.root))
  {
    var s := Staging(fs, w, ls, x);
    RootSeen(fs, w);
    assert s.end.Done?;
    Staged(fs, w, ls, x);
    FreshMoveOpensNothing(s.fs, w.extracted, w.root, ls, x.install);
    Installed(s.fs, w, ls, x);
    var i := Installing(s.fs, w, ls, x);
    assert !i.end.Done?;
    LostAtLast(i.fs, w, ls, x, Subtree(fs, w.root));
  }

  /** The rollback's move ends without the site: its copy did not deliver it. */
  lemma LostAtLast(fs: Fs, w: Places, ls: Listing, x: SwapFaults, site: Tree)
    requires WellFormed(fs) && w.root != [] && Disjoint(w.root, w.staged) && Parent(w.root) in fs
             && fs[Parent(w.root)].Dir?
    requires RollingBack(fs, w, ls, x).through && !SiteKept(RollingBack(fs, w, ls, x).fs, w.root, w.staged, site)
    ensures Undelivered(CopyOf(Cleared(fs, w.root, x.failed), w.staged, w.root, ls, x.rollback), w.staged, w.root, site)
  {
    var f3 := Cleared(fs, w.root, x.failed);
    var c := CopyOf(f3, w.staged, w.root, ls, x.rollback);
    Swept(fs, w.staged, w.root, x.failed);
    CopyGrows(f3, w.staged, w.root, Conditions(ls, x.rollback.cut), x.rollback.steps);
    if c.ok {
      ClearedShape(c.fs, w.staged, x.rollback.stuck);
      SubtreeFrame(Cleared(c.fs, w.staged, x.rollback.stuck), c.fs, w.staged, w.root);
    }
  }

  const IDLE := MoveFaults(false, 0, 0, {})

  lemma GoneWrongLoses(fs: Fs, w: Places, ls: Listing, x: SwapFaults) returns (x': SwapFaults)
    requires CanRestore(fs, w) && Lists(ls) && w.root in fs && GoesWrong(fs, w, ls, x)
    ensures Lost(fs, w, ls, x')
  {
    if Undelivered(StagingCopy(fs, w, ls, x), w.root, w.staged, Subtree(fs, w.root)) {
      x' := SwapFaults(x.stale, x.stage.(renames := false, stuck := {}), IDLE, {}, IDLE, {}, {});
      UndeliveredStaging(fs, w, ls, x, x');
    } else {
      x' := x.(rollback := x.rollback.(renames := false, stuck := {}));
      UndeliveredRollback(fs, w, ls, x, x');
    }
  }

  lemma NothingInNothing(fs: Fs, p: Path, t: Tree)
    requires t != map[] && forall q :: q in fs ==> !(p <= q)
    ensures !Covers(Subtree(fs, p), t)
  {
    var r :| r in t;
    SubtreeAt(fs, p, r);
    assert p <= p + r;
  }

  lemma SiteIsSomething(fs: Fs, root: Path)
    requires root in fs
    ensures Subtree(fs, root) != map[]
  {
    RootOfTree(fs, root);
  }

  lemma UndeliveredStaging(fs: Fs, w: Places, ls: Listing, x: SwapFaults, x': SwapFaults)
    requires CanRestore(fs, w) && Lists(ls) && w.root in fs
    requires Undelivered(StagingCopy(fs, w, ls, x), w.root, w.staged, Subtree(fs, w.root))
    requires x' == SwapFaults(x.stale, x.stage.(renames := false, stuck := {}), IDLE, {}, IDLE, {}, {})
    ensures Lost(fs, w, ls, x')
  {
    var f1, c := Cleared(fs, w.staged, x.stale), StagingCopy(fs, w, ls, x);
    assert StagingCopy(fs, w, ls, x') == c;
    RootSeen(fs, w);
    if c.ok {
      var left := Cleared(c.fs, w.root, {});
      assert left == Prune(c.fs, w.root);
      assert Staging(fs, w, ls, x') == Moved(left, Done, c.through);
      IdleFromHere(left, w, ls, x');
      SubtreeOfPruned(c.fs, w.root, w.staged);
      SiteIsSomething(fs, w.root);
      NothingInNothing(left, w.root, Subtree(fs, w.root));
      assert Swap(fs, w, ls, x').fs == left;
    } else {
      assert Swap(fs, w, ls, x').fs == c.fs;
    }
  }

  /** When every further move fails at once, the disk stays as it is. */
  lemma IdleFromHere(fs: Fs, w: Places, ls: Listing, x: SwapFaults)
    requires x.install == IDLE && x.rollback == IDLE && x.failed == {} && forall q :: q in fs ==> !(w.root <= q)
    ensures forall s: Moved, clean :: s.fs == fs ==>
              Exchange(s, w, ls, x, clean).fs == fs && Exchange(s, w, ls, x, clean).res == RollbackFailed
  {
    assert Cleared(fs, w.root, {}) == fs;
    assert Installing(fs, w, ls, x) == Moved(fs, CopyFailed, false);
    assert RollingBack(fs, w, ls, x) == Moved(fs, CopyFailed, false);
  }

  lemma UndeliveredRollback(fs: Fs, w: Places, ls: Listing, x: SwapFaults, x': SwapFaults)
    requires CanRestore(fs, w) && Lists(ls) && RollsBack(fs, w, ls, x)
    requires Undelivered(RollbackCopy(fs, w, ls, x), w.staged, w.root, Subtree(fs, w.root))
    requires x' == x.(rollback := x.rollback.(renames := false, stuck := {}))
    ensures Lost(fs, w, ls, x')
  {
    var c := RollbackCopy(fs, w, ls, x);
    RootSeen(fs, w);
    assert Staging(fs, w, ls, x') == Staging(fs, w, ls, x);
    assert BeforeRollback(fs, w, ls, x') == BeforeRollback(fs, w, ls, x);
    assert RollbackCopy(fs, w, ls, x') == c;
    if c.ok {
      var left := Cleared(c.fs, w.staged, {});
      assert left == Prune(c.fs, w.staged);
      SubtreeOfPruned(c.fs, w.staged, w.root);
      SiteIsSomething(fs, w.root);
      NothingInNothing(left, w.staged, Subtree(fs, w.root));
      assert Swap(fs, w, ls, x').fs == left;
    } else {
      assert Swap(fs, w, ls, x').fs == c.fs;
    }
  }
}
