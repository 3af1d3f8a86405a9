/** Installing over a live site, as happens when looking at its root fails although it is
    there: nothing is staged, and the archive is copied over the site. */
module LiveInstall {
  import opened FileTree
  import opened CopyTree
  import opened DiskState
  import opened CopyRun
  import opened MovePath
  import opened Restore
  import opened CopyCompletes
  import opened CopySpares
  import opened RestoreLoss

  // ---- A run that completes its copy ----------------------------------------------------------

  /** Once the copy is complete, or the archive was renamed into place, the site has
      survived exactly when the two trees agree wherever both have something. */
  lemma InstallOverLiveSiteIff(fs: Fs, w: Places, ls: Listing, x: SwapFaults)
    requires WellFormed(fs) && w.root != [] && Disjoint(w.extracted, w.root) && Lists(ls) && w.root in fs
    requires Parent(w.root) in fs && fs[Parent(w.root)].Dir?
    requires !Installing(fs, w, ls, x).through && !Installing(fs, w, ls, x).end.CopyFailed?
    ensures var site, restored := Subtree(fs, w.root), Subtree(fs, w.extracted);
            Covers(Subtree(Installing(fs, w, ls, x).fs, w.root), site) <==>
              forall r :: r in site && r in restored ==> SameData(restored[r], site[r])
  {
    var site, restored := Subtree(fs, w.root), Subtree(fs, w.extracted);
    var i := Installing(fs, w, ls, x);
    MoveResult(fs, w.extracted, w.root, ls, x.install);
    if Subtree(i.fs, w.root) == Merge(site, restored) {
      MergeKeepsIff(site, restored);
    } else {
      RenamedOver(fs, w, ls, x);
    }
  }

  lemma MergeKeepsIff(site: Tree, restored: Tree)
    ensures Covers(Merge(site, restored), site) <==>
            forall r :: r in site && r in restored ==> SameData(restored[r], site[r])
  {
    var m := Merge(site, restored);
    forall r | r in site ensures SameData(m[r], site[r]) <==> (r in restored ==> SameData(restored[r], site[r])) {
    }
    if Covers(m, site) {
      forall r | r in site && r in restored ensures SameData(restored[r], site[r]) {
        assert SameData(m[r], site[r]);
      }
    }
  }

  /** A rename only replaces a root that is not a directory. */
  lemma RenamedOver(fs: Fs, w: Places, ls: Listing, x: SwapFaults)
    requires WellFormed(fs) && w.root in fs && w.root != [] && Disjoint(w.extracted, w.root) && Lists(ls)
    requires Parent(w.root) in fs && fs[Parent(w.root)].Dir?
    requires !Installing(fs, w, ls, x).through && !Installing(fs, w, ls, x).end.CopyFailed?
    requires Subtree(Installing(fs, w, ls, x).fs, w.root) != Merge(Subtree(fs, w.root), Subtree(fs, w.extracted))
    ensures var site, restored := Subtree(fs, w.root), Subtree(fs, w.extracted);
            && Subtree(Installing(fs, w, ls, x).fs, w.root) == restored && site.Keys == {[]} && [] in restored
  {
    MoveResult(fs, w.extracted, w.root, ls, x.install);
    assert x.install.renames && CanRename(fs, w.extracted, w.root) by {
      if !(x.install.renames && CanRename(fs, w.extracted, w.root)) { CompletedByCopy(fs, w, ls, x); }
    }
    LeafTree(fs, w.root);
    RootOfTree(fs, w.extracted);
  }

  lemma CompletedByCopy(fs: Fs, w: Places, ls: Listing, x: SwapFaults)
    requires WellFormed(fs) && w.root in fs && w.root != [] && Disjoint(w.extracted, w.root) && Lists(ls)
    requires Parent(w.root) in fs && fs[Parent(w.root)].Dir?
    requires !Installing(fs, w, ls, x).through && !Installing(fs, w, ls, x).end.CopyFailed?
    requires !(x.install.renames && CanRename(fs, w.extracted, w.root))
    ensures Subtree(Installing(fs, w, ls, x).fs, w.root) == Merge(Subtree(fs, w.root), Subtree(fs, w.extracted))
  {
    var c := CopyOf(fs, w.extracted, w.root, ls, x.install);
    CopyResult(fs, w.extracted, w.root, Conditions(ls, x.install.cut), x.install.steps);
    ClearedShape(c.fs, w.extracted, x.install.stuck) by {
      CopyGrows(fs, w.extracted, w.root, Conditions(ls, x.install.cut), x.install.steps);
    }
    SubtreeFrame(Cleared(c.fs, w.extracted, x.install.stuck), c.fs, w.extracted, w.root);
  }

  // ---- A run that is interrupted -----------------------------------------------------------------

  /** A file that a copy over it can be interrupted in, with a part of the new content stored. */
  lemma {:induction false} ReachFile(fs: Fs, src: Path, dst: Path, r: Path, e: Conditions) returns (steps: nat)
    requires WellFormed(fs) && Disjoint(src, dst) && dst != [] && Parent(dst) in fs && fs[Parent(dst)].Dir?
             && Lists(e.ls)
    requires src in fs && NoSpecial(Subtree(fs, src)) && Compatible(fs, src, dst)
    requires src + r in fs && fs[src + r].File? && dst + r in fs && fs[dst + r].File?
    ensures Overwritten(CopyNode(fs, src, dst, e, steps), dst + r, Upto(fs[src + r].content, e.cut))
    decreases |r|, 1, 0
  {
    if r == [] {
      assert src + r == src && dst + r == dst;
      steps := 1;
    } else {
      PathStep(src, r);
      PathStep(dst, r);
      PrefixClosed(fs, src, src + r);
      PrefixClosed(fs, dst, dst + r);
      PrefixClosed(fs, src + [r[0]], src + r);
      ChildNamed(fs, src, r[0]);
      var names := e.ls(ChildNames(fs, src));
      EntriesCompatible(fs, src, dst, names);
      var s := ReachInList(fs, src, dst, names, r, e);
      steps := s + 2;
    }
  }

  /** The copy stopped, and the file holds this. */
  ghost predicate Overwritten(c: Copied, p: Path, content: string) {
    !c.ok && p in c.fs && c.fs[p].File? && c.fs[p].content == content
  }

  lemma {:induction false} ReachInList(fs: Fs, src: Path, dst: Path, names: seq<string>, r: Path, e: Conditions)
    returns (steps: nat)
    requires WellFormed(fs) && Disjoint(src, dst) && dst in fs && fs[dst].Dir? && Lists(e.ls)
             && NoSpecial(Subtree(fs, src))
    requires Distinct(names) && CompatibleEntries(fs, src, dst, names) && r != [] && r[0] in names
    requires src + r in fs && fs[src + r].File? && dst + r in fs && fs[dst + r].File?
    ensures Overwritten(CopyList(fs, src, dst, names, e, steps), dst + r, Upto(fs[src + r].content, e.cut))
    decreases |r|, 0, |names|
  {
    var n, rest := names[0], names[1..];
    ChildDisjoint(src, dst, n);
    ChildSmaller(fs, src, n);
    NoSpecialBelow(fs, src, n);
    assert Parent(dst + [n]) == dst && dst <= dst + [n];
    if n == r[0] {
      PathStep(src, r);
      PathStep(dst, r);
      steps := ReachFile(fs, src + [n], dst + [n], r[1..], e);
    } else {
      var s1 := CompatibleCopy(fs, src + [n], dst + [n], e);
      var one := CopyNode(fs, src + [n], dst + [n], e, s1);
      EntryPassed(fs, one.fs, src, dst, names, r, e, s1);
      var s2 := ReachInList(one.fs, src, dst, rest, r, e);
      ExactCalls(fs, src + [n], dst + [n], e, e, s1);
      MoreSteps(fs, src + [n], dst + [n], e, s1 - one.left, s2);
      steps := s1 - one.left + s2;
    }
  }

  /** The disk after an entry that the file is not below. */
  lemma EntryPassed(a: Fs, b: Fs, src: Path, dst: Path, names: seq<string>, r: Path, e: Conditions, s1: nat)
    requires WellFormed(a) && Disjoint(src, dst) && dst in a && a[dst].Dir? && Lists(e.ls) && NoSpecial(Subtree(a, src))
    requires Distinct(names) && CompatibleEntries(a, src, dst, names) && r != [] && r[0] in names && names[0] != r[0]
    requires src + r in a && dst + r in a
    requires b == CopyNode(a, src + [names[0]], dst + [names[0]], e, s1).fs
             && Prune(b, dst + [names[0]]) == Prune(a, dst + [names[0]])
    ensures WellFormed(b) && dst in b && b[dst].Dir? && NoSpecial(Subtree(b, src))
            && CompatibleEntries(b, src, dst, names[1..])
    ensures r[0] in names[1..] && src + r in b && b[src + r] == a[src + r] && dst + r in b && b[dst + r] == a[dst + r]
  {
    var n := names[0];
    assert Parent(dst + [n]) == dst && dst <= dst + [n];
    CopyGrows(a, src + [n], dst + [n], e, s1);
    AfterEntry(a, b, src, dst, n, names[1..], dst + [n]);
    EntriesKept(a, b, src, dst, names);
    SubtreeAt(a, src, r);
    SubtreeAt(b, src, r);
    PathStep(dst, r);
  }

  /** What one of the schedules leaves of a file that the archive has too. */
  function Interrupted(steps: nat, cut: nat): SwapFaults {
    SwapFaults({}, IDLE, MoveFaults(false, steps, cut, {}), {}, IDLE, {}, {})
  }

  lemma LostInAFile(fs: Fs, w: Places, ls: Listing, r: Path) returns (x: SwapFaults)
    requires WellFormed(fs) && w.root != [] && Disjoint(w.extracted, w.root) && Lists(ls) && w.root in fs
             && w.extracted in fs
    requires Parent(w.root) in fs && fs[Parent(w.root)].Dir?
    requires NoSpecial(Subtree(fs, w.extracted)) && Compatible(fs, w.extracted, w.root)
    requires Contended(Subtree(fs, w.root), Subtree(fs, w.extracted), r)
    ensures !Covers(Subtree(Installing(fs, w, ls, x).fs, w.root), Subtree(fs, w.root))
  {
    SubtreeAt(fs, w.root, r);
    SubtreeAt(fs, w.extracted, r);
    assert CompatibleAt(fs, w.extracted, w.root, r);
    var cut := if fs[w.root + r].content == "" then 1 else 0;
    var steps := ReachFile(fs, w.extracted, w.root, r, Conditions(ls, cut));
    x := Interrupted(steps, cut);
    var i := Installing(fs, w, ls, x);
    SubtreeAt(i.fs, w.root, r);
    assert Subtree(i.fs, w.root)[r].content != Subtree(fs, w.root)[r].content;
  }

  /** Both trees have the file, and not both with nothing in it. */
  predicate Contended(site: Tree, restored: Tree, r: Path) {
    r in site && r in restored && site[r].File? && restored[r].File?
      && !(site[r].content == "" && restored[r].content == "")
  }

  lemma KeptUnlessContended(fs: Fs, w: Places, ls: Listing, x: SwapFaults)
    requires WellFormed(fs) && w.root != [] && Disjoint(w.extracted, w.root) && Lists(ls) && w.root in fs
             && fs[w.root].Dir?
    requires Parent(w.root) in fs && fs[Parent(w.root)].Dir? && !Installing(fs, w, ls, x).through
    requires forall r :: !Contended(Subtree(fs, w.root), Subtree(fs, w.extracted), r)
    ensures Covers(Subtree(Installing(fs, w, ls, x).fs, w.root), Subtree(fs, w.root))
  {
    var i, c := Installing(fs, w, ls, x), CopyOf(fs, w.extracted, w.root, ls, x.install);
    var site, restored := Subtree(fs, w.root), Subtree(fs, w.extracted);
    CopyResult(fs, w.extracted, w.root, Conditions(ls, x.install.cut), x.install.steps);
    CopyGrows(fs, w.extracted, w.root, Conditions(ls, x.install.cut), x.install.steps);
    ClearedShape(c.fs, w.extracted, x.install.stuck);
    SubtreeFrame(Cleared(c.fs, w.extracted, x.install.stuck), c.fs, w.extracted, w.root);
    assert Subtree(i.fs, w.root) == Subtree(c.fs, w.root);
    forall r | r in site ensures r in Subtree(c.fs, w.root) && SameData(Subtree(c.fs, w.root)[r], site[r]) {
      SubtreeAt(fs, w.root, r);
      SubtreeAt(c.fs, w.root, r);
      assert w.root + r in fs;
      assert !Contended(site, restored, r);
    }
  }

  /** If the two trees have no path with nodes of different kinds, or links, some failures
      of an install over the live site lose some of it exactly when a file that is not
      empty in both is in both: an interruption may leave it empty or half-written. */
  lemma LiveSiteLosesIff(fs: Fs, w: Places, ls: Listing)
    requires WellFormed(fs) && w.root != [] && Disjoint(w.extracted, w.root) && Lists(ls) && w.extracted in fs
    requires w.root in fs && fs[w.root].Dir? && Parent(w.root) in fs && fs[Parent(w.root)].Dir?
    requires NoSpecial(Subtree(fs, w.extracted)) && Compatible(fs, w.extracted, w.root)
    ensures (exists x :: !Covers(Subtree(Installing(fs, w, ls, x).fs, w.root), Subtree(fs, w.root)))
            <==> exists r :: Contended(Subtree(fs, w.root), Subtree(fs, w.extracted), r)
  {
    if exists r :: Contended(Subtree(fs, w.root), Subtree(fs, w.extracted), r) {
      var r :| Contended(Subtree(fs, w.root), Subtree(fs, w.extracted), r);
      var x := LostInAFile(fs, w, ls, r);
    } else {
      forall x ensures Covers(Subtree(Installing(fs, w, ls, x).fs, w.root), Subtree(fs, w.root)) {
        CompatibleEffect(fs, w.extracted, w.root, Conditions(ls, x.install.cut), x.install.steps);
        KeptUnlessContended(fs, w, ls, x);
      }
    }
  }
}
