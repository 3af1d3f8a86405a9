/** What can be read off the links of the archive alone: with nothing stale aside, when a
    link that opens where the site has a file or directory loses the site, and when it
    cannot. */
module OpenClash {
  import opened FileTree
  import opened CopyTree
  import opened DiskState
  import opened CopyRun
  import opened Restore
  import opened OpenedLink
  import opened CopyCompletes
  import opened RestoreLoss
  import opened LinkClash
  import opened Leftovers

  ghost predicate HasOpenClash(fs: Fs, w: Places) {
    var site, restored := Subtree(fs, w.root), Subtree(fs, w.extracted);
    exists r :: Clashes(site, restored, r) && Opens(fs, restored[r].target, site[r])
  }

  /** The links of the archive that clash with the site point out of the three places. */
  ghost predicate ClashesStayOut(fs: Fs, w: Places) {
    var site, restored := Subtree(fs, w.root), Subtree(fs, w.extracted);
    forall r :: Clashes(site, restored, r) ==> StaysOut(fs, restored[r].target, MAX_LINK_HOPS - 1, w)
  }

  // ---- A link that opens over a file or an empty directory ----------------------------------

  /** r and the directories that lead to it. */
  function WayTo(r: Path): set<Path> {
    set k | 0 <= k <= |r| :: r[..k]
  }

  lemma WayIsPart(fs: Fs, p: Path, r: Path)
    requires WellFormed(fs) && r in Subtree(fs, p)
    ensures IsPart(Subtree(fs, p), WayTo(r))
  {
    var t := Subtree(fs, p);
    SubtreeKeys(fs, p);
    forall q | q in WayTo(r) ensures q in t && (q != [] ==> Parent(q) in WayTo(r)) {
      PartClosed(t, t.Keys, q, r);
      if q != [] { assert Parent(q) == r[..|q| - 1]; }
    }
  }

  lemma TrialSpine(fs: Fs, w: Places, r: Path)
    requires PlacesApart(w) && r in Subtree(fs, w.extracted) && Subtree(fs, w.extracted)[r].Link?
    ensures Spine(TrialDisk(fs, w, WayTo(r), {[]}), w.root, r, Subtree(fs, w.extracted)[r].target)
  {
    TrialParts(fs, w, WayTo(r), {[]});
    OnlyTheWay(TrialDisk(fs, w, WayTo(r), {[]}), w.root, Subtree(fs, w.extracted), r);
  }

  lemma OnlyTheWay(t: Fs, p: Path, archive: Tree, r: Path)
    requires Subtree(t, p) == Part(CopyImage(archive), WayTo(r)) && r in archive && archive[r].Link?
    ensures Spine(t, p, r, archive[r].target)
  {
    assert r[..|r|] == r && CopyImage(archive)[r] == ImageNode(archive[r]);
    SubtreeAt(t, p, r);
    forall x | x in t && p <= x ensures x <= p + r {
      UnderIsOffset(p, x);
      SubtreeAt(t, p, x[|p|..]);
      assert x[|p|..] in WayTo(r);
    }
  }

  lemma TopIsPart(fs: Fs, p: Path)
    requires p in fs
    ensures IsPart(Subtree(fs, p), {[]})
  {
    RootOfTree(fs, p);
  }

  /** A link that opens where the site has a file or an empty directory loses the site:
      left alone at the root, it lets the copy of the site complete over it. */
  lemma OpenClashLoses(fs: Fs, w: Places, ls: Listing, r: Path) returns (x: SwapFaults)
    requires CanRestore(fs, w) && Lists(ls) && w.root in fs && w.staged !in fs && w.extracted in fs
    requires NoSpecial(Subtree(fs, w.root)) && NoSpecial(Subtree(fs, w.extracted))
    requires Clashes(Subtree(fs, w.root), Subtree(fs, w.extracted), r) && Hollow(fs, w.root + r)
    requires StaysOut(fs, Subtree(fs, w.extracted)[r].target, MAX_LINK_HOPS - 1, w)
    requires Opens(fs, Subtree(fs, w.extracted)[r].target, Subtree(fs, w.root)[r])
    ensures Lost(fs, w, ls, x)
  {
    var t := TrialDisk(fs, w, WayTo(r), {[]});
    WayIsPart(fs, w.extracted, r);
    TopIsPart(fs, w.extracted);
    TrialParts(fs, w, WayTo(r), {[]});
    var installSteps := TrialReached(fs, w, ls, WayTo(r), {[]});
    TrialSpine(fs, w, r);
    var steps := BackOverTheLink(fs, t, w, ls, r);
    SubtreeAt(t, w.root, r);
    CopyKeepsLink(t, w.staged, w.root, Conditions(ls, 0), steps, r);
    x := LeftoverLoses(fs, w, ls, WayTo(r), {[]}, steps, 0);
  }

  lemma BackOverTheLink(fs: Fs, t: Fs, w: Places, ls: Listing, r: Path) returns (steps: nat)
    requires CanRestore(fs, w) && Lists(ls) && w.root in fs && WellFormed(t) && AlikeElsewhere(fs, t, w)
    requires Parent(w.root) in t && t[Parent(w.root)].Dir? && Subtree(t, w.staged) == Subtree(fs, w.root)
    requires NoSpecial(Subtree(fs, w.root)) && Clashes(Subtree(fs, w.root), Subtree(fs, w.extracted), r)
             && Hollow(fs, w.root + r)
    requires Spine(t, w.root, r, Subtree(fs, w.extracted)[r].target)
    requires StaysOut(fs, Subtree(fs, w.extracted)[r].target, MAX_LINK_HOPS - 1, w)
    requires Opens(fs, Subtree(fs, w.extracted)[r].target, Subtree(fs, w.root)[r])
    ensures CopyNode(t, w.staged, w.root, Conditions(ls, 0), steps).ok
  {
    var target, site := Subtree(fs, w.extracted)[r].target, Subtree(fs, w.root);
    SameHollow(fs, t, w.root, w.staged, r);
    RootOfTree(fs, w.root);
    RootOfTree(t, w.staged);
    StayingOutOpensSurely(fs, w, target, site[r]);
    steps := SpineCopy(t, w.staged, w.root, r, Conditions(ls, 0), fs, w, target,
                       Locate(fs, target, MAX_LINK_HOPS - 1).path);
  }

  lemma SameHollow(a: Fs, b: Fs, p: Path, q: Path, r: Path)
    requires Subtree(a, p) == Subtree(b, q) && Hollow(a, p + r)
    ensures Hollow(b, q + r) && b[q + r] == a[p + r] && b[q + r] == Subtree(a, p)[r]
  {
    SubtreeAt(a, p, r);
    SubtreeAt(b, q, r);
    if a[p + r].Dir? {
      forall n ensures n !in ChildNames(b, q + r) {
        ChildNamed(b, q + r, n);
        ChildNamed(a, p + r, n);
        SubtreeAt(a, p, r + [n]);
        SubtreeAt(b, q, r + [n]);
        assert p + (r + [n]) == p + r + [n] && q + (r + [n]) == q + r + [n];
      }
    }
  }

  lemma CopyKeepsLink(fs: Fs, src: Path, dst: Path, e: Conditions, steps: nat, r: Path)
    requires WellFormed(fs) && Disjoint(src, dst) && dst != [] && Parent(dst) in fs && fs[Parent(dst)].Dir?
             && Lists(e.ls)
    requires r in Subtree(fs, src) && !Subtree(fs, src)[r].Link? && dst + r in fs && fs[dst + r].Link?
    requires CopyNode(fs, src, dst, e, steps).ok
    ensures var c := CopyNode(fs, src, dst, e, steps); c.through && !Covers(Subtree(c.fs, dst), Subtree(fs, src))
  {
    var c, t := CopyNode(fs, src, dst, e, steps), Subtree(fs, src);
    CopyGrows(fs, src, dst, e, steps);
    var now := Subtree(c.fs, dst);
    SubtreeAt(c.fs, dst, r);
    assert now[r].Link? && !SameData(now[r], t[r]);
    if !c.through {
      CopyResult(fs, src, dst, e, steps);
      MergeCovers(Subtree(fs, dst), t);
    }
  }

  // ---- Which links lose the site -------------------------------------------------------------

  /** What a copy over a part of the archive opens can be seen to open before the restore. */
  lemma OpenedOnTrial(fs: Fs, w: Places, ls: Listing, kept: set<Path>, unmoved: set<Path>, steps: nat, cut: nat)
    returns (r: Path)
    requires CanRestore(fs, w) && Lists(ls) && w.root in fs && w.staged !in fs && w.extracted in fs
    requires NoSpecial(Subtree(fs, w.extracted)) && LosesOver(fs, w, ls, kept, unmoved, steps, cut)
             && ClashesStayOut(fs, w)
    ensures Clashes(Subtree(fs, w.root), Subtree(fs, w.extracted), r) && r in kept
    ensures Opens(fs, Subtree(fs, w.extracted)[r].target, Subtree(fs, w.root)[r])
  {
    var reached := TrialReached(fs, w, ls, kept, unmoved);
    r := ClashOnTrial(fs, TrialDisk(fs, w, kept, unmoved), w, Conditions(ls, cut), steps, kept, unmoved);
  }

  lemma ClashOnTrial(fs: Fs, t: Fs, w: Places, e: Conditions, steps: nat, kept: set<Path>, unmoved: set<Path>)
    returns (r: Path)
    requires CanRestore(fs, w) && Lists(e.ls) && WellFormed(t) && t == TrialDisk(fs, w, kept, unmoved)
    requires Parent(w.root) in t && t[Parent(w.root)].Dir? && CopyNode(t, w.staged, w.root, e, steps).through
             && ClashesStayOut(fs, w)
    ensures Clashes(Subtree(fs, w.root), Subtree(fs, w.extracted), r) && r in kept
    ensures Opens(fs, Subtree(fs, w.extracted)[r].target, Subtree(fs, w.root)[r])
  {
    TrialParts(fs, w, kept, unmoved);
    PartIsLeft(Subtree(fs, w.extracted), kept);
    r := ClashOnDisk(fs, t, w, e, steps);
  }

  lemma PartIsLeft(archive: Tree, kept: set<Path>)
    ensures LeftByInstall(Part(CopyImage(archive), kept), archive)
  {
  }

  /** If no link that opens lies over a directory with something in it, a restore can lose
      the site exactly when one of those links opens. */
  lemma PlainLosesIff(fs: Fs, w: Places, ls: Listing)
    requires CanRestore(fs, w) && Lists(ls) && w.root in fs && w.staged !in fs && w.extracted in fs
    requires NoSpecial(Subtree(fs, w.root)) && NoSpecial(Subtree(fs, w.extracted)) && Plain(fs, w)
    ensures Loses(fs, w, ls) <==> HasOpenClash(fs, w)
  {
    LosesOverIff(fs, w, ls);
    if Loses(fs, w, ls) {
      var kept, unmoved, steps, cut :| LosesOver(fs, w, ls, kept, unmoved, steps, cut);
      var r := OpenedOnTrial(fs, w, ls, kept, unmoved, steps, cut);
    }
    if HasOpenClash(fs, w) {
      var r :| Clashes(Subtree(fs, w.root), Subtree(fs, w.extracted), r)
               && Opens(fs, Subtree(fs, w.extracted)[r].target, Subtree(fs, w.root)[r]);
      var x := OpenClashLoses(fs, w, ls, r);
    }
  }

  ghost predicate Plain(fs: Fs, w: Places) {
    var site, restored := Subtree(fs, w.root), Subtree(fs, w.extracted);
    && ClashesStayOut(fs, w)
    && forall r :: Clashes(site, restored, r) && Opens(fs, restored[r].target, site[r]) ==> Hollow(fs, w.root + r)
  }

  // ---- A link that opens over a directory with entries ---------------------------------------

  /** dst + r is a link to a directory that has a directory n where the source has a file. */
  ghost predicate Blocked(fs: Fs, src: Path, dst: Path, r: Path, n: string) {
    && dst + r in fs && fs[dst + r].Link? && src + r in fs && fs[src + r].Dir? && src + r + [n] in fs
       && fs[src + r + [n]].File?
    && var at := Locate(fs, fs[dst + r].target, MAX_LINK_HOPS - 1);
    && at.At? && at.path in fs && fs[at.path].Dir? && at.path + [n] in fs && fs[at.path + [n]].Dir?
  }

  /** No copy over such a link completes. */
  lemma {:induction false} BlockedCopy(fs: Fs, src: Path, dst: Path, r: Path, n: string, e: Conditions, steps: nat)
    requires WellFormed(fs) && Lists(e.ls) && Blocked(fs, src, dst, r, n)
    ensures !CopyNode(fs, src, dst, e, steps).ok
    decreases |r|, 1, 0
  {
    if r == [] {
      assert src + r == src && dst + r == dst;
      BlockedBehindALink(fs, src, dst, e, steps, n);
    } else {
      PathStep(src, r);
      PathStep(dst, r);
      PrefixClosed(fs, src, src + r);
      PrefixClosed(fs, dst, dst + r);
      PrefixClosed(fs, src + [r[0]], src + r);
      ChildNamed(fs, src, r[0]);
      if steps > 1 { BlockedList(fs, src, dst, e.ls(ChildNames(fs, src)), r, n, e, steps - 2); }
    }
  }

  lemma {:induction false} BlockedList(fs: Fs, src: Path, dst: Path, names: seq<string>, r: Path, n: string,
                                       e: Conditions, steps: nat)
    requires WellFormed(fs) && Lists(e.ls) && dst in fs && fs[dst].Dir? && r != [] && r[0] in names
    requires Blocked(fs, src + [r[0]], dst + [r[0]], r[1..], n)
    ensures !CopyList(fs, src, dst, names, e, steps).ok
    decreases |r|, 0, |names|
  {
    var m := names[0];
    assert Parent(dst + [m]) == dst;
    if m == r[0] {
      BlockedCopy(fs, src + [m], dst + [m], r[1..], n, e, steps);
    } else {
      var one := CopyNode(fs, src + [m], dst + [m], e, steps);
      CopyGrows(fs, src + [m], dst + [m], e, steps);
      StaysBlocked(fs, one.fs, src + [r[0]], dst + [r[0]], r[1..], n);
      if one.ok { BlockedList(one.fs, src, dst, names[1..], r, n, e, one.left); }
    }
  }

  lemma StaysBlocked(a: Fs, b: Fs, src: Path, dst: Path, r: Path, n: string)
    requires Grown(a, b) && Blocked(a, src, dst, r, n)
    ensures Blocked(b, src, dst, r, n)
  {
    LocateWithin(a, b, a[dst + r].target, MAX_LINK_HOPS - 1);
  }

  lemma BlockedBehindALink(fs: Fs, src: Path, dst: Path, e: Conditions, steps: nat, n: string)
    requires WellFormed(fs) && Lists(e.ls) && src in fs && fs[src].Dir? && MkdirTarget(fs, dst).At?
    requires var q := MkdirTarget(fs, dst).path;
             q in fs && src + [n] in fs && fs[src + [n]].File? && q + [n] in fs && fs[q + [n]].Dir?
    ensures !CopyNode(fs, src, dst, e, steps).ok
  {
    if steps > 1 {
      ChildNamed(fs, src, n);
      BlockedEntry(fs, src, MkdirTarget(fs, dst).path, e.ls(ChildNames(fs, src)), e, steps - 2, n);
    }
  }

  lemma {:induction false} BlockedEntry(fs: Fs, src: Path, dst: Path, names: seq<string>, e: Conditions, steps: nat,
                                        n: string)
    requires WellFormed(fs) && n in names && dst in fs && fs[dst].Dir?
    requires src + [n] in fs && fs[src + [n]].File? && dst + [n] in fs && fs[dst + [n]].Dir?
    ensures !CopyList(fs, src, dst, names, e, steps).ok
    decreases |names|
  {
    var m := names[0];
    var one := CopyNode(fs, src + [m], dst + [m], e, steps);
    assert Parent(dst + [m]) == dst;
    if one.ok && m != n {
      CopyGrows(fs, src + [m], dst + [m], e, steps);
      BlockedEntry(one.fs, src, dst, names[1..], e, one.left, n);
    }
  }

  /** What `target` leads to has a directory where the site has a file in r. */
  ghost predicate BlockedBefore(fs: Fs, w: Places, target: Path, r: Path) {
    var site, at := Subtree(fs, w.root), Locate(fs, target, MAX_LINK_HOPS - 1);
    at.At? && exists n :: BlockedAt(fs, w, site, r, at.path, n)
  }

  predicate BlockedAt(fs: Fs, w: Places, site: Tree, r: Path, q: Path, n: string) {
    r + [n] in site && site[r + [n]].File? && Elsewhere(w, q + [n]) && q + [n] in fs && fs[q + [n]].Dir?
  }

  /** A link to a directory opens where the site has one, but if what lies behind it has a
      directory where the site has a file, no restore loses the site: opening alone does
      not decide over a directory with entries. */
  lemma BlockedLinksAreHarmless(fs: Fs, w: Places, ls: Listing)
    requires CanRestore(fs, w) && Lists(ls) && w.root in fs && w.staged !in fs && w.extracted in fs
    requires NoSpecial(Subtree(fs, w.extracted)) && NothingNames(fs, w) && ClashesStayOut(fs, w)
    requires var site, restored := Subtree(fs, w.root), Subtree(fs, w.extracted);
             forall r :: Clashes(site, restored, r) && Opens(fs, restored[r].target, site[r]) ==>
               site[r].Dir? && BlockedBefore(fs, w, restored[r].target, r)
    ensures !Loses(fs, w, ls)
  {
    LeftoverLosesIff(fs, w, ls);
    if Loses(fs, w, ls) {
      var kept, unmoved :| CompletesOver(fs, w, ls, kept, unmoved);
      var t := TrialDisk(fs, w, kept, unmoved);
      var steps := 2 * |Under(t, w.staged)|;
      var r := OpenedOnTrial(fs, w, ls, kept, unmoved, steps, 0);
      var installSteps := TrialReached(fs, w, ls, kept, unmoved);
      var n := BlockedOnTrial(fs, w, kept, unmoved, r);
      BlockedCopy(t, w.staged, w.root, r, n, Conditions(ls, 0), steps);
    }
  }

  lemma BlockedOnTrial(fs: Fs, w: Places, kept: set<Path>, unmoved: set<Path>, r: Path) returns (n: string)
    requires PlacesApart(w) && r in kept && Clashes(Subtree(fs, w.root), Subtree(fs, w.extracted), r)
    requires BlockedBefore(fs, w, Subtree(fs, w.extracted)[r].target, r)
    requires Subtree(fs, w.root)[r].Dir? && StaysOut(fs, Subtree(fs, w.extracted)[r].target, MAX_LINK_HOPS - 1, w)
    requires Opens(fs, Subtree(fs, w.extracted)[r].target, Subtree(fs, w.root)[r])
    ensures Blocked(TrialDisk(fs, w, kept, unmoved), w.staged, w.root, r, n)
  {
    var t, site, archive := TrialDisk(fs, w, kept, unmoved), Subtree(fs, w.root), Subtree(fs, w.extracted);
    n :| BlockedAt(fs, w, site, r, Locate(fs, archive[r].target, MAX_LINK_HOPS - 1).path, n);
    TrialParts(fs, w, kept, unmoved);
    KeptLink(t, w.root, archive, kept, r);
    BlockedThere(fs, t, w, archive[r].target, r, n);
  }

  lemma KeptLink(t: Fs, p: Path, archive: Tree, kept: set<Path>, r: Path)
    requires Subtree(t, p) == Part(CopyImage(archive), kept) && r in kept && r in archive && archive[r].Link?
    ensures p + r in t && t[p + r].Link? && t[p + r].target == archive[r].target
  {
    SubtreeAt(t, p, r);
    assert CopyImage(archive)[r] == ImageNode(archive[r]);
  }

  lemma BlockedThere(fs: Fs, t: Fs, w: Places, target: Path, r: Path, n: string)
    requires PlacesApart(w) && AlikeElsewhere(fs, t, w) && Subtree(t, w.staged) == Subtree(fs, w.root)
    requires w.root + r in t && t[w.root + r].Link? && t[w.root + r].target == target
             && StaysOut(fs, target, MAX_LINK_HOPS - 1, w)
    requires r in Subtree(fs, w.root) && Subtree(fs, w.root)[r].Dir? && Opens(fs, target, Subtree(fs, w.root)[r])
    requires BlockedAt(fs, w, Subtree(fs, w.root), r, Locate(fs, target, MAX_LINK_HOPS - 1).path, n)
    ensures Blocked(t, w.staged, w.root, r, n)
  {
    SubtreeAt(t, w.staged, r);
    SubtreeAt(t, w.staged, r + [n]);
    assert w.staged + (r + [n]) == w.staged + r + [n];
    SameLocation(fs, t, target, MAX_LINK_HOPS - 1, w);
  }
}
