/** Which outcome a restore has: it succeeds when nothing goes wrong, whether it renames or
    copies, it brings the site back when only the install fails, and what it promises of a
    clean run it promises whenever nothing is stuck. */
module RestoreOutcomes {
  import opened FileTree
  import opened CopyTree
  import opened DiskState
  import opened CopyRun
  import opened MovePath
  import opened Restore
  import opened OpenedLink
  import opened CopyCompletes

  ghost predicate NothingStuck(x: SwapFaults) {
    && x.stale == {} && x.stage.stuck == {} && x.install.stuck == {} && x.failed == {} && x.rollback.stuck == {}
    && x.discard == {}
  }

  lemma MoveClears(fs: Fs, src: Path, dst: Path, ls: Listing, m: MoveFaults)
    requires m.stuck == {}
    ensures !Move(fs, src, dst, ls, m).end.RemovalFailed?
  {
    ClearedGone(CopyOf(fs, src, dst, ls, m).fs, src, {});
  }

  /** If everything can be removed no removal fails, and a success leaves nothing aside. */
  lemma NothingStuckIsClean(fs: Fs, w: Places, ls: Listing, x: SwapFaults)
    requires CanRestore(fs, w) && NothingStuck(x)
    ensures var o := Swap(fs, w, ls, x);
            o.clean && !o.end.RemovalFailed? && (o.res == Restored && w.root in fs ==> w.staged !in o.fs)
  {
    RootSeen(fs, w);
    var s := Staging(fs, w, ls, x);
    ClearedGone(fs, w.staged, {});
    MoveClears(Cleared(fs, w.staged, {}), w.root, w.staged, ls, x.stage);
    MoveClears(fs, w.extracted, w.root, ls, x.install);
    MoveClears(s.fs, w.extracted, w.root, ls, x.install);
    var i := Installing(s.fs, w, ls, x);
    ClearedGone(i.fs, w.staged, {});
    ClearedGone(i.fs, w.root, {});
    MoveClears(Cleared(i.fs, w.root, {}), w.staged, w.root, ls, x.rollback);
  }

  // ---- Success ------------------------------------------------------------------------------

  /** A move onto nothing whose rename works. */
  lemma MovedByRename(fs: Fs, src: Path, dst: Path, ls: Listing, m: MoveFaults)
    requires WellFormed(fs) && Disjoint(src, dst) && dst != [] && Parent(dst) in fs && fs[Parent(dst)].Dir?
    requires src in fs && dst !in fs && m.renames
    ensures var r := Move(fs, src, dst, ls, m);
            && r.end.Done? && !r.through && WellFormed(r.fs) && src !in r.fs && Subtree(r.fs, dst) == Subtree(fs, src)
            && Prune(Prune(r.fs, src), dst) == Prune(Prune(fs, src), dst)
  {
    RenameEffect(fs, src, dst);
    RenameKeepsShape(fs, src, dst);
  }

  /** A move onto nothing whose rename fails, with calls enough for the copy. */
  lemma MovedByCopy(fs: Fs, src: Path, dst: Path, ls: Listing) returns (steps: nat)
    requires WellFormed(fs) && Disjoint(src, dst) && src != [] && dst != [] && Parent(dst) in fs && fs[Parent(dst)].Dir?
    requires src in fs && dst !in fs && Lists(ls) && NoSpecial(Subtree(fs, src))
    ensures var r := Move(fs, src, dst, ls, MoveFaults(false, steps, 0, {}));
            && r.end.Done? && !r.through && WellFormed(r.fs) && src !in r.fs
            && Prune(Prune(r.fs, src), dst) == Prune(Prune(fs, src), dst)
            && CopiedOver(Subtree(r.fs, dst), map[], Subtree(fs, src))
  {
    steps := FreshCopy(fs, src, dst, Conditions(ls, 0));
    var m := MoveFaults(false, steps, 0, {});
    FreshMoveOpensNothing(fs, src, dst, ls, m);
    MoveClears(fs, src, dst, ls, m);
    MoveShape(fs, src, dst, ls, m);
    MoveResult(fs, src, dst, ls, m);
    MoveOutcome(fs, src, dst, ls, m);
    SubtreeOfAbsent(fs, dst);
  }

  /** The disk from which the site is moved aside when nothing stale is stuck. */
  lemma SweptAside(fs: Fs, w: Places)
    requires CanRestore(fs, w)
    ensures var g := Cleared(fs, w.staged, {});
            && WellFormed(g) && w.staged !in g && Subtree(g, w.root) == Subtree(fs, w.root)
            && (w.root in g <==> w.root in fs)
            && Parent(w.staged) in g && g[Parent(w.staged)].Dir?
            && Prune(Prune(g, w.root), w.staged) == Prune(Prune(fs, w.root), w.staged)
  {
    ParentOutside(w.staged, w.root);
    Swept(fs, w.root, w.staged, {});
    ClearedGone(fs, w.staged, {});
  }

  /** When the site has been moved aside the archive is where it was. */
  lemma ArchiveStays(fs: Fs, now: Fs, w: Places)
    requires CanRestore(fs, w) && Prune(Prune(now, w.root), w.staged) == Prune(Prune(fs, w.root), w.staged)
    ensures Subtree(now, w.extracted) == Subtree(fs, w.extracted) && (w.extracted in now <==> w.extracted in fs)
    ensures Parent(w.root) in now && now[Parent(w.root)].Dir?
  {
    TwoPrunes(now, fs, w.root, w.staged, w.extracted);
    PruneCommutes(now, w.root, w.staged);
    PruneCommutes(fs, w.root, w.staged);
    ParentKept(now, fs, w.staged, w.root);
  }

  /** With renames that work and nothing stuck the restore succeeds: the archive is at the
      root as it is, and nothing is left aside or where it was extracted. */
  lemma FaultlessRestores(fs: Fs, w: Places, ls: Listing, x: SwapFaults)
    requires CanRestore(fs, w) && w.extracted in fs && x.stale == {} && x.discard == {}
    requires x.stage.renames && x.install.renames
    ensures var o := Swap(fs, w, ls, x);
            && o.res == Restored && !o.through && o.clean && Subtree(o.fs, w.root) == Subtree(fs, w.extracted)
            && w.extracted !in o.fs && (w.root in fs ==> w.staged !in o.fs)
  {
    RootSeen(fs, w);
    if w.root !in fs {
      MovedByRename(fs, w.extracted, w.root, ls, x.install);
    } else {
      SweptAside(fs, w);
      MovedByRename(Cleared(fs, w.staged, {}), w.root, w.staged, ls, x.stage);
      var s := Staging(fs, w, ls, x);
      ArchiveStays(fs, s.fs, w);
      MovedByRename(s.fs, w.extracted, w.root, ls, x.install);
      Discarded(Installing(s.fs, w, ls, x).fs, w);
    }
  }

  lemma Discarded(fs: Fs, w: Places)
    requires WellFormed(fs) && Disjoint(w.staged, w.root)
    ensures var left := Cleared(fs, w.staged, {});
            && w.staged !in left && Subtree(left, w.root) == Subtree(fs, w.root)
            && (w.extracted !in fs ==> w.extracted !in left)
  {
    ClearedGone(fs, w.staged, {});
    ClearedFrame(fs, w.staged, {}, w.root);
  }

  /** Between filesystems it succeeds as well, with calls enough for the two copies: every
      node of the archive is at the root. */
  lemma CopyingRestores(fs: Fs, w: Places, ls: Listing) returns (x: SwapFaults)
    requires CanRestore(fs, w) && Lists(ls) && w.root in fs && w.extracted in fs
    requires NoSpecial(Subtree(fs, w.root)) && NoSpecial(Subtree(fs, w.extracted))
    ensures !x.stage.renames && !x.install.renames
    ensures var o := Swap(fs, w, ls, x);
            && o.res == Restored && !o.through && w.staged !in o.fs && w.extracted !in o.fs
            && CopiedOver(Subtree(o.fs, w.root), map[], Subtree(fs, w.extracted))
  {
    RootSeen(fs, w);
    SweptAside(fs, w);
    var stageSteps := MovedByCopy(Cleared(fs, w.staged, {}), w.root, w.staged, ls);
    var stage := MoveFaults(false, stageSteps, 0, {});
    var f2 := Move(Cleared(fs, w.staged, {}), w.root, w.staged, ls, stage).fs;
    ArchiveStays(fs, f2, w);
    var installSteps := MovedByCopy(f2, w.extracted, w.root, ls);
    var install := MoveFaults(false, installSteps, 0, {});
    x := SwapFaults({}, stage, install, {}, install, {}, {});
    assert Staging(fs, w, ls, x).fs == f2;
    Discarded(Installing(f2, w, ls, x).fs, w);
  }

  // ---- Only the install fails ----------------------------------------------------------------

  /** If the install fails, in whatever way, and the renames of staging and rollback work,
      the site is back as it was, and nothing is left aside. */
  lemma FailedInstallRollsBack(fs: Fs, w: Places, ls: Listing, x: SwapFaults)
    requires CanRestore(fs, w) && Lists(ls) && w.root in fs && x.stale == {} && x.stage.renames
    requires !Installing(Staging(fs, w, ls, x).fs, w, ls, x).end.Done? && x.failed == {} && x.rollback.renames
    ensures var o := Swap(fs, w, ls, x);
            o.res == InstallFailed && !o.through && Subtree(o.fs, w.root) == Subtree(fs, w.root) && w.staged !in o.fs
  {
    RootSeen(fs, w);
    SweptAside(fs, w);
    MovedByRename(Cleared(fs, w.staged, {}), w.root, w.staged, ls, x.stage);
    var s := Staging(fs, w, ls, x);
    ArchiveStays(fs, s.fs, w);
    FreshMoveOpensNothing(s.fs, w.extracted, w.root, ls, x.install);
    Installed(s.fs, w, ls, x);
    var i := Installing(s.fs, w, ls, x);
    Swept(i.fs, w.staged, w.root, {});
    ClearedGone(i.fs, w.root, {});
    RootOfTree(s.fs, w.staged);
    RootOfTree(i.fs, w.staged);
    RootOfTree(fs, w.root);
    MovedByRename(Cleared(i.fs, w.root, {}), w.staged, w.root, ls, x.rollback);
  }
}
