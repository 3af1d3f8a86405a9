/** What the failures that remain mean for the site's owner: when the message of a
    failed rollback is true, and when it is safe to try again. */
module RestoreLimits {
  import opened FileTree
  import opened CopyTree
  import opened DiskState
  import opened CopyRun
  import opened MovePath
  import opened Restore
  import opened OpenedLink
  import opened CopyCompletes
  import opened RestoreLoss
  import opened LinkClash
  import opened Leftovers
  import opened OpenClash

  // ---- Links that do not open -----------------------------------------------------------

  /** If the links of the archive that lie where the site has a file or directory lead out
      of the three places and none of them opens, no schedule of failures makes the restore
      open one, and every promise holds: such a link to nothing or to a file where the site
      has a directory, or to a directory where it has a file, stops the rollback with the
      site whole aside. */
  lemma ClosedLinksAreHarmless(fs: Fs, w: Places, ls: Listing, x: SwapFaults)
    requires CanRestore(fs, w) && Lists(ls) && w.staged !in fs && !HasOpenClash(fs, w) && ClashesStayOut(fs, w)
    ensures !Swap(fs, w, ls, x).through
    ensures Promised(Swap(fs, w, ls, x), Subtree(fs, w.root), Subtree(fs, w.extracted), w.root in fs, w)
  {
    RootSeen(fs, w);
    if w.root in fs {
      StagesFresh(fs, w, ls, x);
      if Staging(fs, w, ls, x).end.Done? {
        Staged(fs, w, ls, x);
        FreshMoveOpensNothing(Staging(fs, w, ls, x).fs, w.extracted, w.root, ls, x.install);
        if RollsBack(fs, w, ls, x) { NoLinkOpenedBack(fs, w, ls, x); }
      }
    } else {
      FreshMoveOpensNothing(fs, w.extracted, w.root, ls, x.install);
    }
    SwapKeepsPromises(fs, w, ls, x);
  }

  lemma NoLinkOpenedBack(fs: Fs, w: Places, ls: Listing, x: SwapFaults)
    requires CanRestore(fs, w) && Lists(ls) && w.staged !in fs && !HasOpenClash(fs, w) && ClashesStayOut(fs, w)
             && RollsBack(fs, w, ls, x)
    ensures !RollbackCopy(fs, w, ls, x).through
  {
    if RollbackCopy(fs, w, ls, x).through {
      RollbackDisk(fs, w, ls, x);
      var r := ClashOnDisk(fs, BeforeRollback(fs, w, ls, x), w, Conditions(ls, x.rollback.cut), x.rollback.steps);
    }
  }

  // ---- The message of a failed rollback ----------------------------------------------------

  /** After a failed rollback the message says that the original is preserved under the
      staged name. That is so exactly when it was the copy that failed, or when nothing
      of the site could be removed there. */
  lemma MessageIsTrueIff(fs: Fs, w: Places, ls: Listing, x: SwapFaults)
    requires CanRestore(fs, w) && Lists(ls) && !Swap(fs, w, ls, x).through && Swap(fs, w, ls, x).res == RollbackFailed
    ensures var o, site := Swap(fs, w, ls, x), Subtree(fs, w.root);
            Covers(Subtree(o.fs, w.staged), site) <==>
              o.end.CopyFailed? || forall r :: r in site ==>
                Held(RollbackCopy(fs, w, ls, x).fs, x.rollback.stuck, w.staged + r)
  {
    SwapKeepsPromises(fs, w, ls, x);
    var o, site := Swap(fs, w, ls, x), Subtree(fs, w.root);
    if o.end.RemovalFailed? {
      AsideWhenRemoving(fs, w, ls, x);
      CoveredWhereHeld(RollbackCopy(fs, w, ls, x).fs, w.staged, x.rollback.stuck, site);
    }
  }

  /** When the final removal begins the site is still whole aside. */
  lemma AsideWhenRemoving(fs: Fs, w: Places, ls: Listing, x: SwapFaults)
    requires CanRestore(fs, w) && Lists(ls) && !Swap(fs, w, ls, x).through && Swap(fs, w, ls, x).res == RollbackFailed
    requires Swap(fs, w, ls, x).end.RemovalFailed?
    ensures Covers(Subtree(RollbackCopy(fs, w, ls, x).fs, w.staged), Subtree(fs, w.root))
    ensures Swap(fs, w, ls, x).fs == Cleared(RollbackCopy(fs, w, ls, x).fs, w.staged, x.rollback.stuck)
  {
    var s := Staging(fs, w, ls, x);
    Staged(fs, w, ls, x);
    StagedCovers(Subtree(s.fs, w.staged), Subtree(fs, w.root), Subtree(fs, w.staged));
    Installed(s.fs, w, ls, x);
    var i := Installing(s.fs, w, ls, x);
    Swept(i.fs, w.staged, w.root, x.failed);
    var f3 := BeforeRollback(fs, w, ls, x);
    CopyResult(f3, w.staged, w.root, Conditions(ls, x.rollback.cut), x.rollback.steps);
    SubtreeFrame(RollbackCopy(fs, w, ls, x).fs, f3, w.root, w.staged);
  }

  lemma CoveredWhereHeld(fs: Fs, p: Path, stuck: set<Path>, site: Tree)
    requires Covers(Subtree(fs, p), site)
    ensures Covers(Subtree(Cleared(fs, p, stuck), p), site) <==> forall r :: r in site ==> Held(fs, stuck, p + r)
  {
    var now := Subtree(Cleared(fs, p, stuck), p);
    forall r | r in site
      ensures r in now <==> Held(fs, stuck, p + r)
      ensures r in now ==> now[r] == Subtree(fs, p)[r]
    {
      SubtreeAt(fs, p, r);
      SubtreeAt(Cleared(fs, p, stuck), p, r);
      assert p <= p + r;
    }
  }

  /** The site is renamed aside, the install fails at once, the rollback copies the site
      back and can then not remove the directory it copied from. */
  function HalfRemoved(w: Places, steps: nat): SwapFaults {
    SwapFaults({}, MoveFaults(true, 0, 0, {}), IDLE, {}, MoveFaults(false, steps, 0, {w.staged}), {}, {})
  }

  /** For every site that is more than one node the message can be false: the original is
      back at its own path, and all but the top of it is gone from the staged one. */
  lemma MessageCanBeFalse(fs: Fs, w: Places, ls: Listing, r: Path) returns (x: SwapFaults)
    requires CanRestore(fs, w) && Lists(ls) && w.root in fs && w.staged !in fs
    requires NoSpecial(Subtree(fs, w.root)) && r in Subtree(fs, w.root) && r != []
    ensures var o := Swap(fs, w, ls, x);
            && o.res == RollbackFailed && !o.through
            && !Covers(Subtree(o.fs, w.staged), Subtree(fs, w.root))
               && Covers(Subtree(o.fs, w.root), Subtree(fs, w.root))
  {
    var f2 := Renamed(fs, w.root, w.staged);
    StagedByRename(fs, w, ls, HalfRemoved(w, 0));
    RootOfTree(fs, w.root);
    RootOfTree(f2, w.staged);
    var steps := FreshCopy(f2, w.staged, w.root, Conditions(ls, 0));
    x := HalfRemoved(w, steps);
    StagedByRename(fs, w, ls, x);
    BackButNotRemoved(fs, f2, w, ls, x, steps);
    SwapKeepsPromises(fs, w, ls, x);
    MessageIsTrueIff(fs, w, ls, x);
    OnlyTheTopHeld(RollbackCopy(fs, w, ls, x).fs, w.staged, r);
  }

  lemma OnlyTheTopHeld(fs: Fs, p: Path, r: Path)
    requires r != []
    ensures !Held(fs, {p}, p + r)
  {
  }

  lemma BackButNotRemoved(fs: Fs, f2: Fs, w: Places, ls: Listing, x: SwapFaults, steps: nat)
    requires CanRestore(fs, w) && Lists(ls) && w.root in fs && x == HalfRemoved(w, steps)
    requires Staging(fs, w, ls, x) == Moved(f2, Done, false) && WellFormed(f2) && w.root !in f2 && w.staged in f2
    requires Parent(w.root) in f2 && f2[Parent(w.root)].Dir?
             && CopyNode(f2, w.staged, w.root, Conditions(ls, 0), steps).ok
    ensures var o := Swap(fs, w, ls, x); o.res == RollbackFailed && o.end.RemovalFailed? && !o.through
  {
    RootSeen(fs, w);
    var e := Conditions(ls, 0);
    var c := CopyNode(f2, w.staged, w.root, e, steps);
    ClearedAbsent(f2, w.root, {});
    FreshOpensNothing(f2, w.staged, w.root, e, steps);
    CopyGrows(f2, w.staged, w.root, e, steps);
    assert Held(c.fs, {w.staged}, w.staged);
    assert w.staged in Cleared(c.fs, w.staged, {w.staged});
    assert Installing(f2, w, ls, x) == Moved(f2, CopyFailed, false);
    assert RollingBack(f2, w, ls, x) == Moved(Cleared(c.fs, w.staged, {w.staged}), RemovalFailed, false);
  }

  // ---- Trying again ----------------------------------------------------------------------------

  /** A restore of the same backup, started on what an earlier one left, ends with that
      site kept unless it succeeds. */
  ghost predicate KeepsInSecondRun(fs: Fs, w: Places, ls: Listing, site: Tree, x: SwapFaults) {
    var o := Swap(fs, w, ls, x);
    !o.through && o.res != Restored ==> SiteKept(o.fs, w.root, w.staged, site)
  }

  /** The second run begins by deleting the staged copy, unless there is nothing at the
      root. So every schedule of it keeps the site exactly when the site is whole at the
      root, or nothing is there. */
  lemma SecondRunKeepsIff(fs: Fs, w: Places, ls: Listing, site: Tree)
    requires CanRestore(fs, w) && Lists(ls) && SiteKept(fs, w.root, w.staged, site) && site != map[]
    ensures (forall x :: KeepsInSecondRun(fs, w, ls, site, x)) <==> Covers(Subtree(fs, w.root), site) || w.root !in fs
  {
    if Covers(Subtree(fs, w.root), site) || w.root !in fs {
      forall x ensures KeepsInSecondRun(fs, w, ls, site, x) { SecondRunKeeps(fs, w, ls, site, x); }
    } else {
      var x := SwapFaults({}, IDLE, IDLE, {}, IDLE, {}, {});
      SecondRunLoses(fs, w, ls, site, x);
    }
  }

  lemma SecondRunKeeps(fs: Fs, w: Places, ls: Listing, site: Tree, x: SwapFaults)
    requires CanRestore(fs, w) && Lists(ls) && SiteKept(fs, w.root, w.staged, site) && site != map[]
    requires Covers(Subtree(fs, w.root), site) || w.root !in fs
    ensures KeepsInSecondRun(fs, w, ls, site, x)
  {
    var o, live := Swap(fs, w, ls, x), Subtree(fs, w.root);
    RootSeen(fs, w);
    if !o.through && o.res != Restored {
      if w.root in fs {
        SwapKeepsPromises(fs, w, ls, x);
        PromisedKeeps(o, live, Subtree(fs, w.extracted), true, w);
        KeptByTransitivity(o.fs, w, live, site);
      } else {
        SubtreeOfAbsent(fs, w.root);
        Installed(fs, w, ls, x);
      }
    }
  }

  lemma KeptByTransitivity(fs: Fs, w: Places, live: Tree, site: Tree)
    requires SiteKept(fs, w.root, w.staged, live) && Covers(live, site)
    ensures SiteKept(fs, w.root, w.staged, site)
  {
    if Covers(Subtree(fs, w.root), live) { CoversTransitive(Subtree(fs, w.root), live, site); }
    if Covers(Subtree(fs, w.staged), live) { CoversTransitive(Subtree(fs, w.staged), live, site); }
  }

  /** And then it keeps the site in every state on the way: a second swap that starts where
      an earlier one left the site whole at the root, or aside with nothing at the root. */
  method SwapAgain(disk: Disk, w: Places, ls: Listing, x: SwapFaults, ghost site: Tree)
    returns (res: Outcome, ghost o: Swapped)
    requires disk.Valid() && CanRestore(disk.nodes, w) && Lists(ls) && SiteKept(disk.nodes, w.root, w.staged, site)
    requires Covers(Subtree(disk.nodes, w.root), site) || w.root !in disk.nodes
    modifies disk
    ensures disk.Valid() && o == Swap(old(disk.nodes), w, ls, x) && disk.nodes == o.fs && res == o.res
    ensures old(disk.history) <= disk.history
    ensures !o.through ==>
      NothingLost(disk.history, |old(disk.history)|, w.root, w.staged, site, Subtree(old(disk.nodes), w.extracted))
    ensures !o.through && res != Restored ==> KeptThroughout(disk.history, |old(disk.history)|, w.root, w.staged, site)
  {
    ghost var f0, from := disk.nodes, |disk.history|;
    res, o := SwapSite(disk, w, ls, x);
    if !o.through {
      if Covers(Subtree(f0, w.root), site) {
        HistoryKeeps(res, disk.history, from, w, Subtree(f0, w.root), site, Subtree(f0, w.extracted));
      } else {
        AsideKeeps(disk.history, from, w, Subtree(f0, w.staged), site, Subtree(f0, w.extracted));
      }
    }
  }

  lemma HistoryKeeps(res: Outcome, h: seq<Fs>, from: nat, w: Places, live: Tree, site: Tree, restored: Tree)
    requires NothingLost(h, from, w.root, w.staged, live, restored) && Covers(live, site)
    requires res != Restored ==> KeptThroughout(h, from, w.root, w.staged, live)
    ensures NothingLost(h, from, w.root, w.staged, site, restored)
    ensures res != Restored ==> KeptThroughout(h, from, w.root, w.staged, site)
  {
    forall i | from <= i < |h|
      ensures KeptOrRestored(h[i], w.root, w.staged, site, restored)
      ensures res != Restored ==> SiteKept(h[i], w.root, w.staged, site)
    {
      if SiteKept(h[i], w.root, w.staged, live) { KeptByTransitivity(h[i], w, live, site); }
    }
  }

  lemma AsideKeeps(h: seq<Fs>, from: nat, w: Places, aside: Tree, site: Tree, restored: Tree)
    requires KeptThroughout(h, from, w.root, w.staged, aside) && Covers(aside, site)
    ensures NothingLost(h, from, w.root, w.staged, site, restored) && KeptThroughout(h, from, w.root, w.staged, site)
  {
    forall i | from <= i < |h| ensures SiteKept(h[i], w.root, w.staged, site) {
      KeptByTransitivity(h[i], w, aside, site);
    }
  }

  lemma SecondRunLoses(fs: Fs, w: Places, ls: Listing, site: Tree, x: SwapFaults)
    requires CanRestore(fs, w) && Lists(ls) && site != map[] && w.root in fs && !Covers(Subtree(fs, w.root), site)
    requires x == SwapFaults({}, IDLE, IDLE, {}, IDLE, {}, {})
    ensures !KeepsInSecondRun(fs, w, ls, site, x)
  {
    SweptAway(fs, w, site);
    StagingFailsAtOnce(fs, w, ls, x);
  }

  lemma SweptAway(fs: Fs, w: Places, site: Tree)
    requires CanRestore(fs, w) && site != map[] && !Covers(Subtree(fs, w.root), site)
    ensures !SiteKept(Prune(fs, w.staged), w.root, w.staged, site)
  {
    SubtreeOfPruned(fs, w.staged, w.root);
    NothingInNothing(Prune(fs, w.staged), w.staged, site);
  }

  lemma StagingFailsAtOnce(fs: Fs, w: Places, ls: Listing, x: SwapFaults)
    requires CanRestore(fs, w) && w.root in fs && x.stale == {} && x.stage == IDLE
    ensures var o := Swap(fs, w, ls, x); o.fs == Prune(fs, w.staged) && o.res == StageFailed && !o.through
  {
    RootSeen(fs, w);
    ClearedWhole(fs, w.staged);
    assert Staging(fs, w, ls, x) == Moved(Prune(fs, w.staged), CopyFailed, false);
  }

  /** Which outcomes of the first run leave the site where a second one keeps it. */
  lemma SafeToTryAgain(fs: Fs, w: Places, ls: Listing, x: SwapFaults)
    requires CanRestore(fs, w) && Lists(ls) && !Swap(fs, w, ls, x).through
    requires var o := Swap(fs, w, ls, x);
             o.res == InstallFailed || (o.res == StageFailed && o.end.CopyFailed?)
               || (o.res == RollbackFailed && o.end.RemovalFailed?)
    ensures Covers(Subtree(Swap(fs, w, ls, x).fs, w.root), Subtree(fs, w.root))
  {
    SwapKeepsPromises(fs, w, ls, x);
  }

  /** The site is copied aside and cannot be quite removed. */
  function HalfStaged(w: Places, steps: nat): SwapFaults {
    SwapFaults({}, MoveFaults(false, steps, 0, {w.root}), IDLE, {}, IDLE, {}, {})
  }

  /** A staging that failed only in its final removal is not: here is a first run that
      ends so, with the site whole aside, after which some second run loses it. */
  lemma FailedStagingIsNotSafe(fs: Fs, w: Places, ls: Listing, r: Path) returns (x: SwapFaults)
    requires CanRestore(fs, w) && Lists(ls) && w.root in fs && w.staged !in fs
    requires NoSpecial(Subtree(fs, w.root)) && r in Subtree(fs, w.root) && r != []
    ensures var o := Swap(fs, w, ls, x);
            && o.res == StageFailed && o.end.RemovalFailed? && !o.through
               && SiteKept(o.fs, w.root, w.staged, Subtree(fs, w.root))
            && w.root in o.fs && !Covers(Subtree(o.fs, w.root), Subtree(fs, w.root))
            && forall w2: Places :: w2.root == w.root && w2.staged == w.staged && CanRestore(o.fs, w2) ==>
                 exists y :: !KeepsInSecondRun(o.fs, w2, ls, Subtree(fs, w.root), y)
  {
    var e, site := Conditions(ls, 0), Subtree(fs, w.root);
    ParentOutside(w.staged, w.root);
    var steps := FreshCopy(fs, w.root, w.staged, e);
    x := HalfStaged(w, steps);
    HalfStagedRun(fs, w, ls, x, steps, r);
    SwapKeepsPromises(fs, w, ls, x);
    var o := Swap(fs, w, ls, x);
    forall w2: Places | w2.root == w.root && w2.staged == w.staged && CanRestore(o.fs, w2)
      ensures exists y :: !KeepsInSecondRun(o.fs, w2, ls, site, y)
    {
      SiteIsSomething(fs, w.root);
      SecondRunKeepsIff(o.fs, w2, ls, site);
    }
  }

  lemma HalfStagedRun(fs: Fs, w: Places, ls: Listing, x: SwapFaults, steps: nat, r: Path)
    requires CanRestore(fs, w) && Lists(ls) && w.root in fs && w.staged !in fs && x == HalfStaged(w, steps)
    requires CopyNode(fs, w.root, w.staged, Conditions(ls, 0), steps).ok && r in Subtree(fs, w.root) && r != []
    ensures var o := Swap(fs, w, ls, x);
            && o.res == StageFailed && o.end.RemovalFailed? && !o.through && w.root in o.fs
            && !Covers(Subtree(o.fs, w.root), Subtree(fs, w.root))
  {
    RootSeen(fs, w);
    var e := Conditions(ls, 0);
    var c := CopyNode(fs, w.root, w.staged, e, steps);
    ParentOutside(w.staged, w.root);
    ClearedAbsent(fs, w.staged, {});
    FreshOpensNothing(fs, w.root, w.staged, e, steps);
    CopyGrows(fs, w.root, w.staged, e, steps);
    var left := Cleared(c.fs, w.root, {w.root});
    assert Held(c.fs, {w.root}, w.root);
    assert Staging(fs, w, ls, x) == Moved(left, RemovalFailed, false);
    OnlyTheTopHeld(c.fs, w.root, r);
    SubtreeAt(left, w.root, r);
    assert w.root <= w.root + r;
  }
}
