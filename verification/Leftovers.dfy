/** When a restore can lose the site, said of the disk before it begins: some part of the
    archive, left at the site's path, lets a copy of the site over it open a symlink and
    still complete. */
module Leftovers {
  import opened FileTree
  import opened CopyTree
  import opened DiskState
  import opened CopyRun
  import opened MovePath
  import opened Restore
  import opened OpenedLink
  import opened CopyCompletes
  import opened CopyAlike
  import opened CopySpares
  import opened RestoreLoss
  import opened LinkClash

  // ---- Parts of a tree -------------------------------------------------------------------

  function Part(t: Tree, keys: set<Path>): Tree {
    map r | r in t && r in keys :: t[r]
  }

  /** With each path the directories that lead to it. */
  ghost predicate IsPart(t: Tree, keys: set<Path>) {
    keys <= t.Keys && forall r {:trigger Parent(r)} :: r in keys && r != [] ==> Parent(r) in keys
  }

  lemma {:induction false} PartClosed(t: Tree, keys: set<Path>, r: Path, q: Path)
    requires IsPart(t, keys) && q in keys && r <= q
    ensures r in keys
    decreases |q|
  {
    if r != q {
      assert r <= Parent(q);
      PartClosed(t, keys, r, Parent(q));
    }
  }

  lemma SubtreeKeys(fs: Fs, p: Path)
    requires WellFormed(fs)
    ensures IsPart(Subtree(fs, p), Subtree(fs, p).Keys)
  {
    forall r {:trigger Parent(r)} | r in Subtree(fs, p) && r != [] ensures Parent(r) in Subtree(fs, p) {
      SubtreeAt(fs, p, r);
      SubtreeAt(fs, p, Parent(r));
      assert Parent(p + r) == p + Parent(r);
    }
  }

  function Offsets(p: Path, keys: set<Path>): set<Path> {
    set r | r in keys :: p + r
  }

  /** Where the nodes of a part cannot be removed, that part is left. */
  lemma PartHeld(fs: Fs, p: Path, keys: set<Path>)
    requires IsPart(Subtree(fs, p), keys)
    ensures Subtree(Cleared(fs, p, Offsets(p, keys)), p) == Part(Subtree(fs, p), keys)
  {
    var t, left := Subtree(fs, p), Subtree(Cleared(fs, p, Offsets(p, keys)), p);
    forall r
      ensures r in left <==> r in t && r in keys
      ensures r in left ==> left[r] == t[r]
    {
      SubtreeAt(fs, p, r);
      SubtreeAt(Cleared(fs, p, Offsets(p, keys)), p, r);
      HeldInPart(fs, p, keys, r);
    }
  }

  lemma HeldInPart(fs: Fs, p: Path, keys: set<Path>, r: Path)
    requires IsPart(Subtree(fs, p), keys)
    ensures Held(fs, Offsets(p, keys), p + r) <==> r in keys
  {
    if Held(fs, Offsets(p, keys), p + r) {
      var s :| s in Offsets(p, keys) && s in fs && p + r <= s;
      assert p <= s && s[|p|..] in keys && r <= s[|p|..];
      PartClosed(Subtree(fs, p), keys, r, s[|p|..]);
    }
    if r in keys {
      SubtreeAt(fs, p, r);
      assert p + r in Offsets(p, keys);
    }
  }

  // ---- The disk to try the copy on -------------------------------------------------------

  /** The site is aside, the `kept` part of the archive's copy in its place, and the
      `unmoved` part of the archive still where it was extracted. */
  function TrialDisk(fs: Fs, w: Places, kept: set<Path>, unmoved: set<Path>): Fs {
    var site, archive := Subtree(fs, w.root), Subtree(fs, w.extracted);
    Graft(Graft(Graft(fs, w.root, Part(CopyImage(archive), kept)), w.staged, site), w.extracted, Part(archive, unmoved))
  }

  /** Any part of the archive may be left at the root, and any part but none where it was. */
  ghost predicate Leaves(fs: Fs, w: Places, kept: set<Path>, unmoved: set<Path>) {
    IsPart(Subtree(fs, w.extracted), kept) && IsPart(Subtree(fs, w.extracted), unmoved) && [] in unmoved
  }

  ghost predicate PlacesApart(w: Places) {
    && w.extracted != [] && w.root != [] && w.staged != []
    && Disjoint(w.extracted, w.root) && Disjoint(w.extracted, w.staged) && Disjoint(w.root, w.staged)
  }

  lemma TrialParts(fs: Fs, w: Places, kept: set<Path>, unmoved: set<Path>)
    requires PlacesApart(w)
    ensures var t, archive := TrialDisk(fs, w, kept, unmoved), Subtree(fs, w.extracted);
            && Subtree(t, w.root) == Part(CopyImage(archive), kept) && Subtree(t, w.staged) == Subtree(fs, w.root)
            && Subtree(t, w.extracted) == Part(archive, unmoved) && AlikeElsewhere(fs, t, w)
  {
    var site, archive := Subtree(fs, w.root), Subtree(fs, w.extracted);
    var a := Graft(fs, w.root, Part(CopyImage(archive), kept));
    var b := Graft(a, w.staged, site);
    var t := Graft(b, w.extracted, Part(archive, unmoved));
    GraftTree(fs, w.root, Part(CopyImage(archive), kept));
    GraftTree(a, w.staged, site);
    GraftTree(b, w.extracted, Part(archive, unmoved));
    SubtreeFrame(b, a, w.staged, w.root);
    SubtreeFrame(t, b, w.extracted, w.root);
    SubtreeFrame(t, b, w.extracted, w.staged);
    AlikeOne(fs, a, w.root, w);
    AlikeOne(a, b, w.staged, w);
    AlikeOne(b, t, w.extracted, w);
    AlikeTrans(fs, a, b, w);
    AlikeTrans(fs, b, t, w);
  }

  /** A disk is what it is in the three places and elsewhere. */
  lemma SameInThreePlaces(a: Fs, b: Fs, w: Places)
    requires AlikeElsewhere(a, b, w) && Subtree(a, w.root) == Subtree(b, w.root)
    requires Subtree(a, w.staged) == Subtree(b, w.staged) && Subtree(a, w.extracted) == Subtree(b, w.extracted)
    ensures a == b
  {
    forall q
      ensures q in a <==> q in b
      ensures q in a ==> q in b && a[q] == b[q]
    {
      if w.root <= q { SameBelow(a, b, w.root, q); }
      if w.staged <= q { SameBelow(a, b, w.staged, q); }
      if w.extracted <= q { SameBelow(a, b, w.extracted, q); }
    }
  }

  lemma SameBelow(a: Fs, b: Fs, p: Path, q: Path)
    requires p <= q && Subtree(a, p) == Subtree(b, p)
    ensures q in a <==> q in b
    ensures q in a ==> a[q] == b[q]
  {
    UnderIsOffset(p, q);
    SubtreeAt(a, p, q[|p|..]);
    SubtreeAt(b, p, q[|p|..]);
  }

  // ---- Every such disk is reached --------------------------------------------------------

  lemma StagedByRename(fs: Fs, w: Places, ls: Listing, x: SwapFaults)
    requires CanRestore(fs, w) && w.root in fs && w.staged !in fs && x.stage.renames
    ensures Staging(fs, w, ls, x) == Moved(Renamed(fs, w.root, w.staged), Done, false)
    ensures var f2 := Renamed(fs, w.root, w.staged);
            && WellFormed(f2) && w.root !in f2 && Subtree(f2, w.staged) == Subtree(fs, w.root)
            && Subtree(f2, w.extracted) == Subtree(fs, w.extracted) && AlikeElsewhere(fs, f2, w)
            && Parent(w.root) in f2 && f2[Parent(w.root)].Dir? && (w.extracted in f2 <==> w.extracted in fs)
  {
    var f2 := Renamed(fs, w.root, w.staged);
    ClearedAbsent(fs, w.staged, x.stale);
    ParentOutside(w.staged, w.root);
    RenameKeepsShape(fs, w.root, w.staged);
    RenameEffect(fs, w.root, w.staged);
    TwoPrunes(f2, fs, w.root, w.staged, w.extracted);
    ParentKept(f2, fs, w.root, w.staged);
    AlikeTwo(fs, f2, w.root, w.staged, w);
  }

  /** The install copies everything, and of the original a part cannot be removed. */
  lemma InstalledByCopy(fs: Fs, w: Places, ls: Listing, unmoved: set<Path>) returns (steps: nat)
    requires WellFormed(fs) && w.root != [] && w.root !in fs && Disjoint(w.extracted, w.root) && Lists(ls)
    requires Parent(w.root) in fs && fs[Parent(w.root)].Dir? && w.extracted in fs && NoSpecial(Subtree(fs, w.extracted))
    requires IsPart(Subtree(fs, w.extracted), unmoved) && [] in unmoved
    ensures forall x: SwapFaults :: x.install == MoveFaults(false, steps, 0, Offsets(w.extracted, unmoved)) ==>
              var i := Installing(fs, w, ls, x);
              && i.end.RemovalFailed? && Subtree(i.fs, w.root) == CopyImage(Subtree(fs, w.extracted))
              && Subtree(i.fs, w.extracted) == Part(Subtree(fs, w.extracted), unmoved)
  {
    var e, stuck := Conditions(ls, 0), Offsets(w.extracted, unmoved);
    steps := FreshCopy(fs, w.extracted, w.root, e);
    var c := CopyNode(fs, w.extracted, w.root, e, steps);
    FreshOpensNothing(fs, w.extracted, w.root, e, steps);
    CopyResult(fs, w.extracted, w.root, e, steps);
    CopyGrows(fs, w.extracted, w.root, e, steps);
    SubtreeOfAbsent(fs, w.root);
    MergeOntoNothing(Subtree(fs, w.extracted));
    SubtreeFrame(c.fs, fs, w.root, w.extracted);
    var left := Cleared(c.fs, w.extracted, stuck);
    PartHeld(c.fs, w.extracted, unmoved);
    ClearedShape(c.fs, w.extracted, stuck);
    SubtreeFrame(left, c.fs, w.extracted, w.root);
    RootOfTree(left, w.extracted);
  }

  /** The site is renamed aside, the archive is copied into place and cannot be removed
      where it was but for a part, and of the failed install some part is kept. */
  function LeavingRun(w: Places, kept: set<Path>, unmoved: set<Path>, steps: nat, back: MoveFaults): SwapFaults {
    SwapFaults({}, MoveFaults(true, 0, 0, {}), MoveFaults(false, steps, 0, Offsets(w.extracted, unmoved)),
               Offsets(w.root, kept), back, {}, {})
  }

  lemma TrialReached(fs: Fs, w: Places, ls: Listing, kept: set<Path>, unmoved: set<Path>) returns (steps: nat)
    requires CanRestore(fs, w) && Lists(ls) && w.root in fs && w.staged !in fs && w.extracted in fs
    requires NoSpecial(Subtree(fs, w.extracted)) && Leaves(fs, w, kept, unmoved)
    ensures forall back :: var x := LeavingRun(w, kept, unmoved, steps, back);
              RollsBack(fs, w, ls, x) && BeforeRollback(fs, w, ls, x) == TrialDisk(fs, w, kept, unmoved)
    ensures var t := TrialDisk(fs, w, kept, unmoved); WellFormed(t) && Parent(w.root) in t && t[Parent(w.root)].Dir?
  {
    var f2 := Renamed(fs, w.root, w.staged);
    StagedByRename(fs, w, ls, LeavingRun(w, kept, unmoved, 0, IDLE));
    steps := InstalledByCopy(f2, w, ls, unmoved);
    TrialIsLeft(fs, f2, w, ls, kept, unmoved, steps, IDLE);
    forall back
      ensures var x := LeavingRun(w, kept, unmoved, steps, back);
              RollsBack(fs, w, ls, x) && BeforeRollback(fs, w, ls, x) == TrialDisk(fs, w, kept, unmoved)
    {
      StagedByRename(fs, w, ls, LeavingRun(w, kept, unmoved, steps, back));
      TrialIsLeft(fs, f2, w, ls, kept, unmoved, steps, back);
    }
  }

  lemma TrialIsLeft(fs: Fs, f2: Fs, w: Places, ls: Listing, kept: set<Path>, unmoved: set<Path>, steps: nat,
                    back: MoveFaults)
    requires CanRestore(fs, w) && Lists(ls) && w.root !in f2 && WellFormed(f2) && Leaves(fs, w, kept, unmoved)
    requires Parent(w.root) in f2 && f2[Parent(w.root)].Dir? && AlikeElsewhere(fs, f2, w)
    requires Subtree(f2, w.staged) == Subtree(fs, w.root) && Subtree(f2, w.extracted) == Subtree(fs, w.extracted)
    requires var i := Installing(f2, w, ls, LeavingRun(w, kept, unmoved, steps, back));
             && i.end.RemovalFailed? && Subtree(i.fs, w.root) == CopyImage(Subtree(fs, w.extracted))
             && Subtree(i.fs, w.extracted) == Part(Subtree(fs, w.extracted), unmoved)
    ensures var x, t := LeavingRun(w, kept, unmoved, steps, back), TrialDisk(fs, w, kept, unmoved);
            && Cleared(Installing(f2, w, ls, x).fs, w.root, x.failed) == t
            && WellFormed(t) && Parent(w.root) in t && t[Parent(w.root)].Dir?
  {
    var x := LeavingRun(w, kept, unmoved, steps, back);
    var i := Installing(f2, w, ls, x).fs;
    var f3 := Cleared(i, w.root, x.failed);
    AfterInstall(f2, w, ls, x);
    PartHeld(i, w.root, kept);
    ClearedFrame(i, w.root, x.failed, w.extracted);
    TrialParts(fs, w, kept, unmoved);
    AlikeTrans(fs, f2, f3, w);
    AlikeBack(fs, f3, TrialDisk(fs, w, kept, unmoved), w);
    SameInThreePlaces(f3, TrialDisk(fs, w, kept, unmoved), w);
  }

  lemma AlikeBack(a: Fs, b: Fs, c: Fs, w: Places)
    requires AlikeElsewhere(a, b, w) && AlikeElsewhere(a, c, w)
    ensures AlikeElsewhere(b, c, w)
  {
  }

  // ---- And every disk a rollback begins with is like one of them ---------------------------

  lemma RollbackIsTrial(fs: Fs, w: Places, ls: Listing, x: SwapFaults) returns (kept: set<Path>, unmoved: set<Path>)
    requires CanRestore(fs, w) && Lists(ls) && w.staged !in fs && w.extracted in fs && RollsBack(fs, w, ls, x)
    ensures Leaves(fs, w, kept, unmoved)
    ensures Alike(BeforeRollback(fs, w, ls, x), TrialDisk(fs, w, kept, unmoved), w.staged)
  {
    var f3 := BeforeRollback(fs, w, ls, x);
    RollbackDisk(fs, w, ls, x);
    ArchiveAtRollback(fs, w, ls, x);
    kept, unmoved := Subtree(f3, w.root).Keys, Subtree(f3, w.extracted).Keys;
    SubtreeKeys(f3, w.root);
    SubtreeKeys(f3, w.extracted);
    RootOfTree(f3, w.extracted);
    TrialAlike(fs, f3, w, kept, unmoved);
  }

  lemma TrialAlike(fs: Fs, f3: Fs, w: Places, kept: set<Path>, unmoved: set<Path>)
    requires PlacesApart(w) && AlikeElsewhere(fs, f3, w) && MovedExactly(Subtree(f3, w.staged), Subtree(fs, w.root))
    requires LeftByInstall(Subtree(f3, w.root), Subtree(fs, w.extracted)) && kept == Subtree(f3, w.root).Keys
    requires SubtreeOf(Subtree(f3, w.extracted), Subtree(fs, w.extracted)) && unmoved == Subtree(f3, w.extracted).Keys
    ensures Alike(f3, TrialDisk(fs, w, kept, unmoved), w.staged)
  {
    var t, archive := TrialDisk(fs, w, kept, unmoved), Subtree(fs, w.extracted);
    TrialParts(fs, w, kept, unmoved);
    AlikeBack(fs, f3, t, w);
    KeptAlike(Subtree(f3, w.root), archive);
    AsideAlike(Subtree(f3, w.staged), Subtree(fs, w.root));
    UnmovedAlike(Subtree(f3, w.extracted), archive);
    PlacesAlike(f3, t, w);
  }

  predicate AlikeNodes(m: Node, n: Node, data: bool) {
    SameShape(m, n) && (data ==> SameData(m, n))
  }

  ghost predicate AlikeTrees(a: Tree, b: Tree, data: bool) {
    a.Keys == b.Keys && forall r :: r in a ==> AlikeNodes(a[r], b[r], data)
  }

  lemma KeptAlike(now: Tree, archive: Tree)
    requires LeftByInstall(now, archive)
    ensures AlikeTrees(now, Part(CopyImage(archive), now.Keys), false)
  {
  }

  lemma AsideAlike(now: Tree, site: Tree)
    requires MovedExactly(now, site)
    ensures AlikeTrees(now, site, true)
  {
  }

  lemma UnmovedAlike(now: Tree, archive: Tree)
    requires SubtreeOf(now, archive)
    ensures AlikeTrees(now, Part(archive, now.Keys), false)
  {
  }

  lemma PlacesAlike(a: Fs, b: Fs, w: Places)
    requires PlacesApart(w) && AlikeElsewhere(a, b, w)
    requires AlikeTrees(Subtree(a, w.root), Subtree(b, w.root), false)
    requires AlikeTrees(Subtree(a, w.staged), Subtree(b, w.staged), true)
    requires AlikeTrees(Subtree(a, w.extracted), Subtree(b, w.extracted), false)
    ensures Alike(a, b, w.staged)
  {
    forall q ensures AlikeAt(a, b, w.staged, q) {
      if w.root <= q {
        AlikeBelow(a, b, w, w.root, q);
      } else if w.staged <= q {
        AlikeBelow(a, b, w, w.staged, q);
      } else if w.extracted <= q {
        AlikeBelow(a, b, w, w.extracted, q);
      } else {
        assert Elsewhere(w, q);
      }
    }
  }

  lemma AlikeBelow(a: Fs, b: Fs, w: Places, p: Path, q: Path)
    requires p <= q && PlacesApart(w) && (p == w.root || p == w.staged || p == w.extracted)
    requires AlikeTrees(Subtree(a, p), Subtree(b, p), p == w.staged)
    ensures AlikeAt(a, b, w.staged, q)
  {
    UnderIsOffset(p, q);
    SubtreeAt(a, p, q[|p|..]);
    SubtreeAt(b, p, q[|p|..]);
    if w.staged <= q { PrefixesCompare(p, w.staged, q); }
  }

  // ---- The condition -----------------------------------------------------------------------

  function CopyBack(fs: Fs, w: Places, ls: Listing, kept: set<Path>, unmoved: set<Path>, steps: nat, cut: nat): Copied {
    CopyNode(TrialDisk(fs, w, kept, unmoved), w.staged, w.root, Conditions(ls, cut), steps)
  }

  /** The copy of the site over what is left opens a link, and completes or spoils what it
      copies before it stops. */
  ghost predicate LosesOver(fs: Fs, w: Places, ls: Listing, kept: set<Path>, unmoved: set<Path>, steps: nat, cut: nat) {
    var c := CopyBack(fs, w, ls, kept, unmoved, steps, cut);
    Leaves(fs, w, kept, unmoved) && c.through && (c.ok || !Covers(Subtree(c.fs, w.staged), Subtree(fs, w.root)))
  }

  /** For every site and archive, wherever their links lead: some failures lose the site
      if and only if one copy of it over a part of the archive goes wrong. */
  lemma LosesOverIff(fs: Fs, w: Places, ls: Listing)
    requires CanRestore(fs, w) && Lists(ls) && w.root in fs && w.staged !in fs && w.extracted in fs
    requires NoSpecial(Subtree(fs, w.extracted))
    ensures Loses(fs, w, ls) <==> exists kept, unmoved, steps, cut :: LosesOver(fs, w, ls, kept, unmoved, steps, cut)
  {
    if Loses(fs, w, ls) {
      var x :| Lost(fs, w, ls, x);
      var kept, unmoved := LostOverLeftover(fs, w, ls, x);
    }
    if exists kept, unmoved, steps, cut :: LosesOver(fs, w, ls, kept, unmoved, steps, cut) {
      var kept, unmoved, steps, cut :| LosesOver(fs, w, ls, kept, unmoved, steps, cut);
      var x := LeftoverLoses(fs, w, ls, kept, unmoved, steps, cut);
    }
  }

  lemma LostOverLeftover(fs: Fs, w: Places, ls: Listing, x: SwapFaults) returns (kept: set<Path>, unmoved: set<Path>)
    requires CanRestore(fs, w) && Lists(ls) && w.staged !in fs && w.extracted in fs && Lost(fs, w, ls, x)
    ensures LosesOver(fs, w, ls, kept, unmoved, x.rollback.steps, x.rollback.cut)
  {
    LossNeedsOpening(fs, w, ls, x);
    StagesFresh(fs, w, ls, x);
    LostInRollback(fs, w, ls, x);
    kept, unmoved := RollbackIsTrial(fs, w, ls, x);
    var f3, e := BeforeRollback(fs, w, ls, x), Conditions(ls, x.rollback.cut);
    CopyAlikeRuns(f3, TrialDisk(fs, w, kept, unmoved), w.staged, w.staged, w.root, e, x.rollback.steps);
    CoversAlike(RollbackCopy(fs, w, ls, x).fs, CopyBack(fs, w, ls, kept, unmoved, x.rollback.steps, x.rollback.cut).fs,
                w.staged, Subtree(fs, w.root));
  }

  lemma CoversAlike(a: Fs, b: Fs, p: Path, t: Tree)
    requires Alike(a, b, p)
    ensures Covers(Subtree(a, p), t) <==> Covers(Subtree(b, p), t)
  {
    forall r
      ensures r in Subtree(a, p) <==> r in Subtree(b, p)
      ensures r in Subtree(a, p) ==> SameData(Subtree(a, p)[r], Subtree(b, p)[r])
    {
      SubtreeAt(a, p, r);
      SubtreeAt(b, p, r);
      assert p <= p + r && AlikeAt(a, b, p, p + r);
    }
  }

  lemma LeftoverLoses(fs: Fs, w: Places, ls: Listing, kept: set<Path>, unmoved: set<Path>, steps: nat, cut: nat)
    returns (x: SwapFaults)
    requires CanRestore(fs, w) && Lists(ls) && w.root in fs && w.staged !in fs && w.extracted in fs
    requires NoSpecial(Subtree(fs, w.extracted)) && LosesOver(fs, w, ls, kept, unmoved, steps, cut)
    ensures Lost(fs, w, ls, x)
  {
    var installSteps := TrialReached(fs, w, ls, kept, unmoved);
    x := LeavingRun(w, kept, unmoved, installSteps, MoveFaults(false, steps, cut, {}));
    TrialParts(fs, w, kept, unmoved);
    OpenedNeverCovers(TrialDisk(fs, w, kept, unmoved), w.staged, w.root, Conditions(ls, cut), steps);
    assert RollbackCopy(fs, w, ls, x) == CopyBack(fs, w, ls, kept, unmoved, steps, cut);
    x := GoneWrongLoses(fs, w, ls, x);
  }

  // ---- Where nothing leads back aside --------------------------------------------------------

  /** No symlink on the disk names the staged directory, and no path of the site does. */
  ghost predicate NothingNames(fs: Fs, w: Places)
    requires w.staged != []
  {
    var name := w.staged[|w.staged| - 1];
    && (forall q :: q in fs && fs[q].Link? ==> name !in fs[q].target)
    && (forall r :: r in Subtree(fs, w.root) ==> name !in r)
  }

  /** The undisturbed copy of the site over what is left, with two calls for each of its
      nodes, opens a link and completes. */
  ghost predicate CompletesOver(fs: Fs, w: Places, ls: Listing, kept: set<Path>, unmoved: set<Path>) {
    var c := CopyBack(fs, w, ls, kept, unmoved, 2 * |Under(TrialDisk(fs, w, kept, unmoved), w.staged)|, 0);
    Leaves(fs, w, kept, unmoved) && c.ok && c.through
  }

  /** What can be checked before the restore, by finitely many copies: it can lose the site
      if and only if the copy of the site over some part of the archive opens a link and
      completes. */
  lemma LeftoverLosesIff(fs: Fs, w: Places, ls: Listing)
    requires CanRestore(fs, w) && Lists(ls) && w.root in fs && w.staged !in fs && w.extracted in fs
    requires NoSpecial(Subtree(fs, w.extracted)) && NothingNames(fs, w)
    ensures Loses(fs, w, ls) <==> exists kept, unmoved :: CompletesOver(fs, w, ls, kept, unmoved)
  {
    LosesOverIff(fs, w, ls);
    if Loses(fs, w, ls) {
      var kept, unmoved, steps, cut :| LosesOver(fs, w, ls, kept, unmoved, steps, cut);
      CompletesUndisturbed(fs, w, ls, kept, unmoved, steps, cut);
    }
    if exists kept, unmoved :: CompletesOver(fs, w, ls, kept, unmoved) {
      var kept, unmoved :| CompletesOver(fs, w, ls, kept, unmoved);
      var steps := 2 * |Under(TrialDisk(fs, w, kept, unmoved), w.staged)|;
      assert LosesOver(fs, w, ls, kept, unmoved, steps, 0);
    }
  }

  lemma CompletesUndisturbed(fs: Fs, w: Places, ls: Listing, kept: set<Path>, unmoved: set<Path>, steps: nat, cut: nat)
    requires CanRestore(fs, w) && Lists(ls) && NothingNames(fs, w) && LosesOver(fs, w, ls, kept, unmoved, steps, cut)
    ensures CompletesOver(fs, w, ls, kept, unmoved)
  {
    var t := TrialDisk(fs, w, kept, unmoved);
    TrialUnnamed(fs, w, kept, unmoved);
    TrialParts(fs, w, kept, unmoved);
    SiteSpared(t, w.staged, w.root, Conditions(ls, cut), steps, Subtree(fs, w.root));
    EnoughCalls(t, w.staged, w.root, Conditions(ls, cut), Conditions(ls, 0), steps);
  }

  lemma SiteSpared(t: Fs, src: Path, dst: Path, e: Conditions, steps: nat, site: Tree)
    requires src != [] && Unnamed(t, src) && !(src <= dst) && Lists(e.ls) && Subtree(t, src) == site
    ensures Covers(Subtree(CopyNode(t, src, dst, e, steps).fs, src), site)
  {
    CopySparesSource(t, src, src, dst, e, steps);
    SparedTree(t, CopyNode(t, src, dst, e, steps).fs, src);
  }

  lemma SparedTree(a: Fs, b: Fs, p: Path)
    requires p != [] && Spared(a, b, p)
    ensures Subtree(b, p) == Subtree(a, p)
  {
    forall r
      ensures r in Subtree(a, p) <==> r in Subtree(b, p)
      ensures r in Subtree(a, p) ==> Subtree(a, p)[r] == Subtree(b, p)[r]
    {
      SubtreeAt(a, p, r);
      SubtreeAt(b, p, r);
      assert p <= p + r;
    }
  }

  lemma TrialUnnamed(fs: Fs, w: Places, kept: set<Path>, unmoved: set<Path>)
    requires PlacesApart(w) && NothingNames(fs, w)
    ensures Unnamed(TrialDisk(fs, w, kept, unmoved), w.staged)
  {
    var t, name := TrialDisk(fs, w, kept, unmoved), w.staged[|w.staged| - 1];
    TrialParts(fs, w, kept, unmoved);
    LinksBelow(fs, w.root, name);
    LinksBelow(fs, w.extracted, name);
    PartAvoids(Subtree(fs, w.extracted), kept, unmoved, name);
    forall q | q in t ensures LinkAvoids(t[q], name) {
      if w.root <= q {
        LinkOf(t, w.root, q, name);
      } else if w.staged <= q {
        LinkOf(t, w.staged, q, name);
      } else if w.extracted <= q {
        LinkOf(t, w.extracted, q, name);
      } else {
        LinkElsewhere(fs, t, w, q, name);
      }
    }
    SiteAside(fs, t, w);
  }

  predicate LinkAvoids(n: Node, name: string) {
    n.Link? ==> name !in n.target
  }

  ghost predicate LinksAvoid(t: Tree, name: string) {
    forall r :: r in t ==> LinkAvoids(t[r], name)
  }

  lemma LinksBelow(fs: Fs, p: Path, name: string)
    requires forall q :: q in fs && fs[q].Link? ==> name !in fs[q].target
    ensures LinksAvoid(Subtree(fs, p), name)
  {
    forall r | r in Subtree(fs, p) ensures LinkAvoids(Subtree(fs, p)[r], name) {
      SubtreeAt(fs, p, r);
    }
  }

  lemma PartAvoids(archive: Tree, kept: set<Path>, unmoved: set<Path>, name: string)
    requires LinksAvoid(archive, name)
    ensures LinksAvoid(Part(CopyImage(archive), kept), name) && LinksAvoid(Part(archive, unmoved), name)
  {
  }

  lemma LinkOf(t: Fs, p: Path, q: Path, name: string)
    requires p <= q && q in t && LinksAvoid(Subtree(t, p), name)
    ensures LinkAvoids(t[q], name)
  {
    UnderIsOffset(p, q);
    SubtreeAt(t, p, q[|p|..]);
  }

  lemma LinkElsewhere(fs: Fs, t: Fs, w: Places, q: Path, name: string)
    requires AlikeElsewhere(fs, t, w) && Elsewhere(w, q) && q in t
    requires forall q :: q in fs && fs[q].Link? ==> name !in fs[q].target
    ensures LinkAvoids(t[q], name)
  {
  }

  lemma SiteAside(fs: Fs, t: Fs, w: Places)
    requires w.staged != [] && NothingNames(fs, w) && Subtree(t, w.staged) == Subtree(fs, w.root)
    ensures forall q :: q in t && w.staged <= q ==> w.staged[|w.staged| - 1] !in q[|w.staged|..]
  {
    forall q | q in t && w.staged <= q ensures w.staged[|w.staged| - 1] !in q[|w.staged|..] {
      UnderIsOffset(w.staged, q);
      SubtreeAt(t, w.staged, q[|w.staged|..]);
    }
  }
}
