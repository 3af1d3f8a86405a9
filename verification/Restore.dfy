/** backupRestoreTask from the extracted archive on: sanitize, stage the live
    site aside, install the archive, roll back on failure, discard. */
module Restore {
  import opened FileTree
  import opened CopyTree
  import opened DiskState
  import opened CopyRun
  import opened MovePath
  import opened Sanitize

  datatype Outcome = SanitizeFailed | StageFailed | InstallFailed | RollbackFailed | Restored

  datatype OwnerRef = Unknown | Known(owner: Owner)

  /** What the archive is turned into before it is installed; the owner is
      unknown only if the reference directory could not be inspected. */
  function ToInstall(archive: Tree, ref: OwnerRef): Tree {
    if ref.Known? then Sanitized(archive, ref.owner) else archive
  }

  datatype Places = Places(extracted: Path, root: Path, staged: Path)

  /** What a caller can check before a restore: the three places are apart, their
      parents exist, and a symlink at the site's root leads to something, though not
      into the archive. */
  ghost predicate CanRestore(fs: Fs, w: Places) {
    && WellFormed(fs) && w.extracted != [] && w.root != [] && w.staged != []
    && Disjoint(w.extracted, w.root) && Disjoint(w.extracted, w.staged) && Disjoint(w.root, w.staged)
    && Parent(w.root) in fs && fs[Parent(w.root)].Dir? && Parent(w.staged) == Parent(w.root)
    && (w.root in fs && fs[w.root].Link? ==> Exists(Prune(fs, w.extracted), w.root))
  }

  /** Then looking for the site's root tells the truth. */
  lemma RootSeen(fs: Fs, w: Places)
    requires CanRestore(fs, w)
    ensures Exists(fs, w.root) <==> w.root in fs
  {
    ExistsUnlessLink(fs, w.root);
    if w.root in fs && fs[w.root].Link? { LocateWithin(Prune(fs, w.extracted), fs, w.root, MAX_LINK_HOPS); }
  }

  // ---- The swap as a function of what goes wrong ------------------------------------

  type Listing = set<string> -> seq<string>

  /** What cannot be removed of a stale staged tree, what goes wrong in each of the
      moves, what cannot be removed of a failed install, of the discarded tree and of
      the temporary directory. */
  datatype SwapFaults = SwapFaults(stale: set<Path>, stage: MoveFaults, install: MoveFaults, failed: set<Path>,
                                   rollback: MoveFaults, discard: set<Path>, cleanup: set<Path>)

  /** `end` is how the last of the moves ended, `clean` says that no removal failed. */
  datatype Swapped = Swapped(fs: Fs, res: Outcome, end: End, through: bool, clean: bool)

  function Staging(fs: Fs, w: Places, ls: Listing, x: SwapFaults): Moved {
    Move(Cleared(fs, w.staged, x.stale), w.root, w.staged, ls, x.stage)
  }

  function Installing(fs: Fs, w: Places, ls: Listing, x: SwapFaults): Moved {
    Move(fs, w.extracted, w.root, ls, x.install)
  }

  function RollingBack(fs: Fs, w: Places, ls: Listing, x: SwapFaults): Moved {
    Move(Cleared(fs, w.root, x.failed), w.staged, w.root, ls, x.rollback)
  }

  function Swap(fs: Fs, w: Places, ls: Listing, x: SwapFaults): Swapped {
    if !Exists(fs, w.root) then
      var i := Installing(fs, w, ls, x);
      Swapped(i.fs, if i.end.Done? then Restored else InstallFailed, i.end, i.through, !i.end.RemovalFailed?)
    else
      var s := Staging(fs, w, ls, x);
      var swept := w.staged !in Cleared(fs, w.staged, x.stale);
      if !s.end.Done? then Swapped(s.fs, StageFailed, s.end, s.through, swept && !s.end.RemovalFailed?)
      else Exchange(s, w, ls, x, swept)
  }

  /** From the staged site on. */
  function Exchange(s: Moved, w: Places, ls: Listing, x: SwapFaults, clean: bool): Swapped {
    var i := Installing(s.fs, w, ls, x);
    if i.end.Done? then
      var left := Cleared(i.fs, w.staged, x.discard);
      Swapped(left, Restored, Done, s.through || i.through, clean && w.staged !in left)
    else
      var b := RollingBack(i.fs, w, ls, x);
      Swapped(b.fs, if b.end.Done? then InstallFailed else RollbackFailed, b.end, s.through || i.through || b.through,
              clean && !i.end.RemovalFailed? && w.root !in Cleared(i.fs, w.root, x.failed) && !b.end.RemovalFailed?)
  }

  // ---- What is kept, and what each outcome promises ------------------------------------

  /** The site's data is whole in this state: under its own path or staged. */
  ghost predicate SiteKept(fs: Fs, root: Path, staged: Path, site: Tree) {
    Covers(Subtree(fs, root), site) || Covers(Subtree(fs, staged), site)
  }

  ghost predicate KeptOrRestored(fs: Fs, root: Path, staged: Path, site: Tree, restored: Tree) {
    SiteKept(fs, root, staged, site) || Covers(Subtree(fs, root), restored)
  }

  /** t itself, when it was renamed, or its copy. */
  ghost predicate MovedExactly(now: Tree, t: Tree) {
    now == t || now == CopyImage(t)
  }

  /** What may lie under the staged name: the site, its copy, or its copy over
      what a failed removal left of a stale staged tree. */
  ghost predicate StagedFrom(now: Tree, site: Tree, stale: Tree) {
    now == site || exists left: Tree :: SubtreeOf(left, stale) && now == Merge(left, site)
  }

  /** What a failed install leaves under the site's own path. */
  ghost predicate LeftByInstall(now: Tree, restored: Tree) {
    forall r :: r in now ==> r in restored && PartOf(now[r], restored[r])
  }

  /** What each outcome promises about the site that was there and the archive to be
      installed, when no symlink was opened. After a failed rollback the original is
      at its own path if only the final removal failed, and staged otherwise. */
  ghost predicate Promised(o: Swapped, site: Tree, restored: Tree, hadRoot: bool, w: Places) {
    var atRoot, atStaged := Subtree(o.fs, w.root), Subtree(o.fs, w.staged);
    match o.res
    case SanitizeFailed => atRoot == site
    case StageFailed => if o.end.RemovalFailed? then Covers(atStaged, site) else atRoot == site
    case InstallFailed =>
      && Covers(atRoot, site)
      && (hadRoot ==> w.staged !in o.fs)
      && (o.clean && hadRoot ==> MovedExactly(atRoot, site))
    case RollbackFailed =>
      && (if o.end.RemovalFailed? then Covers(atRoot, site) else Covers(atStaged, site))
      && (o.clean ==> MovedExactly(atStaged, site))
    case Restored =>
      && MovedExactly(atRoot, restored) && Covers(atRoot, restored)
      && (o.clean && hadRoot ==> w.staged !in o.fs)
  }

  lemma MovedCovers(now: Tree, t: Tree)
    requires MovedExactly(now, t)
    ensures Covers(now, t)
  {
    MergeOntoNothing(t);
    MergeCovers(map[], t);
  }

  lemma StagedCovers(now: Tree, site: Tree, stale: Tree)
    requires StagedFrom(now, site, stale)
    ensures Covers(now, site)
  {
    if now != site {
      var left :| SubtreeOf(left, stale) && now == Merge(left, site);
      MergeCovers(left, site);
    }
  }

  lemma TwoPrunes(a: Fs, b: Fs, p: Path, q: Path, x: Path)
    requires Prune(Prune(a, p), q) == Prune(Prune(b, p), q) && Disjoint(p, x) && Disjoint(q, x)
    ensures Subtree(a, x) == Subtree(b, x)
    ensures x in a <==> x in b
    ensures x != [] ==> (Parent(x) in a <==> Parent(x) in b) && (Parent(x) in a ==> a[Parent(x)] == b[Parent(x)])
  {
    SubtreeFrame(Prune(a, p), Prune(b, p), q, x);
    SubtreeOfPruned(a, p, x);
    SubtreeOfPruned(b, p, x);
    RootOfTree(a, x);
    RootOfTree(b, x);
    if x != [] {
      ParentOutside(x, p);
      ParentOutside(x, q);
      PruneFrame(Prune(a, p), Prune(b, p), q, Parent(x));
    }
  }

  lemma SubtreeOfPruned(fs: Fs, p: Path, x: Path)
    requires Disjoint(p, x)
    ensures Subtree(Prune(fs, p), x) == Subtree(fs, x)
  {
    assert Prune(Prune(fs, p), p) == Prune(fs, p);
    SubtreeFrame(Prune(fs, p), fs, p, x);
  }

  lemma ParentKept(a: Fs, b: Fs, p: Path, q: Path)
    requires Prune(Prune(a, p), q) == Prune(Prune(b, p), q) && Disjoint(p, q) && q != []
    ensures Parent(q) in a <==> Parent(q) in b
    ensures Parent(q) in a ==> a[Parent(q)] == b[Parent(q)]
  {
    ParentOutside(q, p);
    PruneFrame(Prune(a, p), Prune(b, p), q, Parent(q));
    assert Parent(q) in a <==> Parent(q) in Prune(a, p);
    assert Parent(q) in b <==> Parent(q) in Prune(b, p);
  }

  lemma ClearedFrame(fs: Fs, p: Path, stuck: set<Path>, x: Path)
    requires Disjoint(p, x)
    ensures Subtree(Cleared(fs, p, stuck), x) == Subtree(fs, x)
  {
    assert Prune(Cleared(fs, p, stuck), p) == Prune(fs, p);
    SubtreeFrame(Cleared(fs, p, stuck), fs, p, x);
  }

  /** The disk a move is made on after its destination was cleared. */
  lemma Swept(fs: Fs, src: Path, dst: Path, stuck: set<Path>)
    requires WellFormed(fs) && Disjoint(src, dst) && dst != []
    ensures var g := Cleared(fs, dst, stuck);
            && WellFormed(g) && SubtreeOf(Subtree(g, dst), Subtree(fs, dst)) && Subtree(g, src) == Subtree(fs, src)
            && (src in g <==> src in fs) && (src in fs ==> g[src] == fs[src]) && Prune(g, dst) == Prune(fs, dst)
            && Prune(Prune(g, src), dst) == Prune(Prune(fs, src), dst)
            && (Parent(dst) in fs ==> Parent(dst) in g && g[Parent(dst)] == fs[Parent(dst)])
            && (dst !in g ==> Subtree(g, dst) == map[])
  {
    var g := Cleared(fs, dst, stuck);
    ClearedShape(fs, dst, stuck);
    SubtreeFrame(g, fs, dst, src);
    PruneBoth(g, fs, src, dst);
    PruneFrame(g, fs, dst, src);
    ParentOutside(dst, src);
    PruneFrame(g, fs, dst, Parent(dst));
    if dst !in g { SubtreeOfAbsent(g, dst); }
  }

  /** What a move that opened no symlink makes of a tree and of what the removal left
      at its destination. */
  ghost predicate Relaid(s: Tree, stale: Tree, s': Tree, d': Tree, end: End, swept: bool) {
    match end
    case Done => s' == map[] && StagedFrom(d', s, stale) && (swept ==> MovedExactly(d', s))
    case CopyFailed => s' == s
    case RemovalFailed => SubtreeOf(s', s) && StagedFrom(d', s, stale)
  }

  lemma SweptMove(fs: Fs, src: Path, dst: Path, stuck: set<Path>, ls: Listing, m: MoveFaults)
    requires WellFormed(fs) && Disjoint(src, dst) && dst != [] && Lists(ls)
    requires Parent(dst) in fs && fs[Parent(dst)].Dir? && !Move(Cleared(fs, dst, stuck), src, dst, ls, m).through
    ensures var g, r := Cleared(fs, dst, stuck), Move(Cleared(fs, dst, stuck), src, dst, ls, m);
            && WellFormed(r.fs) && Prune(Prune(r.fs, src), dst) == Prune(Prune(fs, src), dst)
            && Relaid(Subtree(fs, src), Subtree(fs, dst), Subtree(r.fs, src), Subtree(r.fs, dst), r.end, dst !in g)
            && (r.end.Done? ==> src !in r.fs)
  {
    var g := Cleared(fs, dst, stuck);
    Swept(fs, src, dst, stuck);
    MoveShape(g, src, dst, ls, m);
    MoveResult(g, src, dst, ls, m);
    MergeOntoNothing(Subtree(fs, src));
  }

  lemma MovedOntoNothing(fs: Fs, src: Path, dst: Path, ls: Listing, m: MoveFaults)
    requires WellFormed(fs) && dst != [] && dst !in fs && Disjoint(src, dst) && Lists(ls)
    requires Parent(dst) in fs && fs[Parent(dst)].Dir? && !Move(fs, src, dst, ls, m).through
    ensures var r, t := Move(fs, src, dst, ls, m), Subtree(fs, src);
            && WellFormed(r.fs) && Prune(Prune(r.fs, src), dst) == Prune(Prune(fs, src), dst)
            && (r.end.Done? ==> MovedExactly(Subtree(r.fs, dst), t))
            && (!r.end.Done? ==> LeftByInstall(Subtree(r.fs, dst), t))
  {
    MoveShape(fs, src, dst, ls, m);
    MoveResult(fs, src, dst, ls, m);
    SubtreeOfAbsent(fs, dst);
    var r := Move(fs, src, dst, ls, m);
    OntoNothing(Subtree(fs, src), Subtree(r.fs, src), Subtree(r.fs, dst), r.end);
  }

  lemma OntoNothing(t: Tree, s': Tree, d': Tree, end: End)
    requires MovesTree(t, map[], s', d', end)
    ensures end.Done? ==> MovedExactly(d', t)
    ensures !end.Done? ==> LeftByInstall(d', t)
  {
    MergeOntoNothing(t);
  }

  lemma Installed(fs: Fs, w: Places, ls: Listing, x: SwapFaults)
    requires WellFormed(fs) && w.root != [] && w.root !in fs && Disjoint(w.extracted, w.root) && Lists(ls)
    requires Disjoint(w.extracted, w.staged) && Disjoint(w.root, w.staged)
    requires Parent(w.root) in fs && fs[Parent(w.root)].Dir? && !Installing(fs, w, ls, x).through
    ensures var i, restored := Installing(fs, w, ls, x), Subtree(fs, w.extracted);
            && WellFormed(i.fs) && Subtree(i.fs, w.staged) == Subtree(fs, w.staged)
            && Parent(w.root) in i.fs && i.fs[Parent(w.root)].Dir?
            && (i.end.Done? ==> MovedExactly(Subtree(i.fs, w.root), restored))
            && (!i.end.Done? ==> LeftByInstall(Subtree(i.fs, w.root), restored))
  {
    MovedOntoNothing(fs, w.extracted, w.root, ls, x.install);
    var now := Installing(fs, w, ls, x).fs;
    TwoPrunes(now, fs, w.extracted, w.root, w.staged);
    ParentKept(now, fs, w.extracted, w.root);
  }

  /** For every schedule of failures: unless a symlink was opened, each outcome leaves
      the disk as it promises. */
  lemma SwapKeepsPromises(fs: Fs, w: Places, ls: Listing, x: SwapFaults)
    requires CanRestore(fs, w) && Lists(ls) && !Swap(fs, w, ls, x).through
    ensures Promised(Swap(fs, w, ls, x), Subtree(fs, w.root), Subtree(fs, w.extracted), w.root in fs, w)
  {
    var site, restored := Subtree(fs, w.root), Subtree(fs, w.extracted);
    RootSeen(fs, w);
    if w.root !in fs {
      SubtreeOfAbsent(fs, w.root);
      Installed(fs, w, ls, x);
      var i := Installing(fs, w, ls, x);
      if i.end.Done? { MovedCovers(Subtree(i.fs, w.root), restored); }
    } else {
      ParentOutside(w.staged, w.root);
      var s := Staging(fs, w, ls, x);
      SweptMove(fs, w.root, w.staged, x.stale, ls, x.stage);
      if !s.end.Done? {
        if s.end.RemovalFailed? { StagedCovers(Subtree(s.fs, w.staged), site, Subtree(fs, w.staged)); }
      } else {
        Staged(fs, w, ls, x);
        ExchangePromises(s, w, ls, x, w.staged !in Cleared(fs, w.staged, x.stale), site, Subtree(fs, w.staged),
                         restored);
      }
    }
  }

  /** The disk as the install finds it. */
  lemma Staged(fs: Fs, w: Places, ls: Listing, x: SwapFaults)
    requires CanRestore(fs, w) && Lists(ls) && w.root in fs
    requires !Staging(fs, w, ls, x).through && Staging(fs, w, ls, x).end.Done?
    ensures var s := Staging(fs, w, ls, x);
            && WellFormed(s.fs) && w.root !in s.fs && Subtree(s.fs, w.extracted) == Subtree(fs, w.extracted)
            && Parent(w.root) in s.fs && s.fs[Parent(w.root)].Dir?
            && StagedFrom(Subtree(s.fs, w.staged), Subtree(fs, w.root), Subtree(fs, w.staged))
            && (w.staged !in Cleared(fs, w.staged, x.stale) ==>
               MovedExactly(Subtree(s.fs, w.staged), Subtree(fs, w.root)))
  {
    var s := Staging(fs, w, ls, x);
    SweptMove(fs, w.root, w.staged, x.stale, ls, x.stage);
    TwoPrunes(s.fs, fs, w.root, w.staged, w.extracted);
    ParentKept(s.fs, fs, w.root, w.staged);
  }

  lemma ExchangePromises(s: Moved, w: Places, ls: Listing, x: SwapFaults, clean: bool, site: Tree, stale: Tree,
                         restored: Tree)
    requires WellFormed(s.fs) && w.root != [] && w.staged != [] && w.root !in s.fs && Lists(ls)
    requires Disjoint(w.extracted, w.root) && Disjoint(w.extracted, w.staged) && Disjoint(w.root, w.staged)
    requires Parent(w.root) in s.fs && s.fs[Parent(w.root)].Dir? && restored == Subtree(s.fs, w.extracted)
    requires StagedFrom(Subtree(s.fs, w.staged), site, stale) && (clean ==> MovedExactly(Subtree(s.fs, w.staged), site))
    requires !Exchange(s, w, ls, x, clean).through
    ensures Promised(Exchange(s, w, ls, x, clean), site, restored, true, w)
  {
    Installed(s.fs, w, ls, x);
    StagedCovers(Subtree(s.fs, w.staged), site, stale);
    if Installing(s.fs, w, ls, x).end.Done? {
      DiscardPromises(s, w, ls, x, clean, site, restored);
    } else {
      RollbackPromises(s, w, ls, x, clean, site, restored);
    }
  }

  lemma DiscardPromises(s: Moved, w: Places, ls: Listing, x: SwapFaults, clean: bool, site: Tree, restored: Tree)
    requires w.root != [] && w.staged != [] && Disjoint(w.root, w.staged)
    requires var i := Installing(s.fs, w, ls, x);
             i.end.Done? && WellFormed(i.fs) && MovedExactly(Subtree(i.fs, w.root), restored)
    ensures Promised(Exchange(s, w, ls, x, clean), site, restored, true, w)
  {
    var now := Installing(s.fs, w, ls, x).fs;
    var left, tree := Cleared(now, w.staged, x.discard), Subtree(now, w.root);
    MovedCovers(tree, restored);
    ClearedShape(now, w.staged, x.discard);
    SubtreeFrame(left, now, w.staged, w.root);
    var o := Exchange(s, w, ls, x, clean);
    assert o.fs == left && o.res == Restored && (o.clean ==> w.staged !in left);
  }

  lemma RollbackPromises(s: Moved, w: Places, ls: Listing, x: SwapFaults, clean: bool, site: Tree, restored: Tree)
    requires w.root != [] && w.staged != [] && Disjoint(w.root, w.staged) && Lists(ls)
    requires var i := Installing(s.fs, w, ls, x);
             && !i.end.Done? && WellFormed(i.fs) && Parent(w.root) in i.fs && i.fs[Parent(w.root)].Dir?
             && Covers(Subtree(i.fs, w.staged), site) && (clean ==> MovedExactly(Subtree(i.fs, w.staged), site))
             && !RollingBack(i.fs, w, ls, x).through
    ensures Promised(Exchange(s, w, ls, x, clean), site, restored, true, w)
  {
    var now := Installing(s.fs, w, ls, x).fs;
    var aside, swept := Subtree(now, w.staged), w.root !in Cleared(now, w.root, x.failed);
    SweptMove(now, w.staged, w.root, x.failed, ls, x.rollback);
    RolledBack(now, RollingBack(now, w, ls, x), w, aside, site, swept);
    CopyImageIsStable(site);
  }

  lemma RolledBack(fs: Fs, b: Moved, w: Places, aside: Tree, site: Tree, swept: bool)
    requires WellFormed(b.fs) && Covers(aside, site) && Subtree(fs, w.staged) == aside
    requires Relaid(aside, Subtree(fs, w.root), Subtree(b.fs, w.staged), Subtree(b.fs, w.root), b.end, swept)
    ensures b.end.CopyFailed? ==> Subtree(b.fs, w.staged) == aside
    ensures !b.end.CopyFailed? ==> Covers(Subtree(b.fs, w.root), site)
    ensures b.end.Done? ==> w.staged !in b.fs && (swept ==> MovedExactly(Subtree(b.fs, w.root), aside))
  {
    RootOfTree(b.fs, w.staged);
    if !b.end.CopyFailed? {
      StagedCovers(Subtree(b.fs, w.root), aside, Subtree(fs, w.root));
      CoversTransitive(Subtree(b.fs, w.root), aside, site);
    }
  }

  // ---- Every state of the run ------------------------------------------------------------

  ghost predicate KeptThroughout(h: seq<Fs>, from: nat, root: Path, staged: Path, site: Tree) {
    forall i :: from <= i < |h| ==> SiteKept(h[i], root, staged, site)
  }

  /** In every state from index `from` on the site is whole, or the archive is. */
  ghost predicate NothingLost(h: seq<Fs>, from: nat, root: Path, staged: Path, site: Tree, restored: Tree) {
    forall i :: from <= i < |h| ==> KeptOrRestored(h[i], root, staged, site, restored)
  }

  lemma KeptFurther(h1: seq<Fs>, h2: seq<Fs>, from: nat, root: Path, staged: Path, site: Tree)
    requires h1 <= h2 && KeptThroughout(h1, from, root, staged, site) && KeptThroughout(h2, |h1|, root, staged, site)
    ensures KeptThroughout(h2, from, root, staged, site)
  {
    forall i | from <= i < |h2| ensures SiteKept(h2[i], root, staged, site) {
      if i < |h1| { assert h1[i] == h2[i]; }
    }
  }

  /** Work elsewhere cannot lose a site that is whole at one of its two places. */
  lemma ElsewhereKeeps(h: seq<Fs>, from: nat, base: Fs, p: Path, root: Path, staged: Path, site: Tree)
    requires Confined(h, from, base, p)
    requires (Disjoint(p, root) && Covers(Subtree(base, root), site))
             || (Disjoint(p, staged) && Covers(Subtree(base, staged), site))
    ensures KeptThroughout(h, from, root, staged, site)
  {
    forall i | from <= i < |h| ensures SiteKept(h[i], root, staged, site) {
      if Disjoint(p, root) { SubtreeFrame(h[i], base, p, root); }
      if Disjoint(p, staged) { SubtreeFrame(h[i], base, p, staged); }
    }
  }

  /** A tree that moves between the site's two places is never absent from both. */
  lemma MoveKeeps(h: seq<Fs>, from: nat, base: Fs, src: Path, dst: Path, root: Path, staged: Path, t: Tree, site: Tree)
    requires KeptAtOneEnd(h, from, base, src, dst, t) && Covers(t, site)
    requires (src == root && dst == staged) || (src == staged && dst == root)
    ensures KeptThroughout(h, from, root, staged, site)
  {
    forall i | from <= i < |h| ensures SiteKept(h[i], root, staged, site) {
      if Covers(Subtree(h[i], dst), t) { CoversTransitive(Subtree(h[i], dst), t, site); }
    }
  }

  lemma InstallKeeps(h: seq<Fs>, from: nat, base: Fs, extracted: Path, root: Path, staged: Path, t: Tree, site: Tree)
    requires KeptAtOneEnd(h, from, base, extracted, root, t) && Covers(Subtree(base, staged), site)
    requires Disjoint(extracted, staged) && Disjoint(root, staged)
    ensures KeptThroughout(h, from, root, staged, site)
  {
    forall i | from <= i < |h| ensures SiteKept(h[i], root, staged, site) {
      TwoPrunes(h[i], base, extracted, root, staged);
    }
  }

  /** Clearing dst and moving the tree at src there, between the site's two places. */
  method SweepAndMove(disk: Disk, src: Path, dst: Path, stuck: set<Path>, ls: Listing, m: MoveFaults, ghost root: Path,
                      ghost staged: Path,
                      ghost site: Tree) returns (end: End, ghost through: bool)
    requires disk.Valid() && Disjoint(src, dst) && src != [] && dst != [] && Lists(ls)
    requires Parent(dst) in disk.nodes && disk.nodes[Parent(dst)].Dir?
    requires (src == root && dst == staged) || (src == staged && dst == root)
    requires Covers(Subtree(disk.nodes, src), site)
    modifies disk
    ensures disk.Valid() && Moved(disk.nodes, end, through)
            == Move(Cleared(old(disk.nodes), dst, stuck), src, dst, ls, m)
    ensures old(disk.history) <= disk.history
    ensures !through ==> KeptThroughout(disk.history, |old(disk.history)|, root, staged, site)
  {
    ghost var f0, h0 := disk.nodes, disk.history;
    Swept(f0, src, dst, stuck);
    disk.RemoveAll(dst, stuck);  // its error is ignored
    ghost var f1, h1 := disk.nodes, disk.history;
    ElsewhereKeeps(h1, |h0|, f0, dst, root, staged, site);
    end, through := MovePath.MovePath(disk, src, dst, ls, m);
    if !through {
      MoveKeeps(disk.history, |h1|, f1, src, dst, root, staged, Subtree(f1, src), site);
      KeptFurther(h1, disk.history, |h0|, root, staged, site);
    }
  }

  /** Installing, and rolling back or discarding, once the site is staged. */
  method InstallOrRollBack(disk: Disk, w: Places, ls: Listing, x: SwapFaults, ghost s: Moved, ghost clean: bool,
                           ghost site: Tree)
    returns (res: Outcome, ghost o: Swapped)
    requires disk.Valid() && disk.nodes == s.fs && Lists(ls)
    requires w.extracted != [] && w.root != [] && w.staged != [] && w.root !in disk.nodes
    requires Disjoint(w.extracted, w.root) && Disjoint(w.extracted, w.staged) && Disjoint(w.root, w.staged)
    requires Parent(w.root) in disk.nodes && disk.nodes[Parent(w.root)].Dir?
    requires !s.through ==> Covers(Subtree(disk.nodes, w.staged), site)
    modifies disk
    ensures disk.Valid() && o == Exchange(s, w, ls, x, clean) && disk.nodes == o.fs && res == o.res
    ensures old(disk.history) <= disk.history
    ensures !o.through ==>
      NothingLost(disk.history, |old(disk.history)|, w.root, w.staged, site, Subtree(old(disk.nodes), w.extracted))
    ensures !o.through && res != Restored ==> KeptThroughout(disk.history, |old(disk.history)|, w.root, w.staged, site)
  {
    ghost var f0, h0, restored := disk.nodes, disk.history, Subtree(disk.nodes, w.extracted);
    o := Exchange(s, w, ls, x, clean);
    ghost var opened', opened'': bool;
    var end: End;
    end, opened' := MovePath.MovePath(disk, w.extracted, w.root, ls, x.install);
    ghost var f1, h1 := disk.nodes, disk.history;
    if !o.through {
      Installed(f0, w, ls, x);
      InstallKeeps(h1, |h0|, f0, w.extracted, w.root, w.staged, restored, site);
    }
    if end.Done? {
      if !o.through { MovedCovers(Subtree(f1, w.root), restored); }
      disk.RemoveAll(w.staged, x.discard);  // its error is only logged
      if !o.through { RestoredKept(h1, disk.history, |h0|, f1, w.root, w.staged, site, restored); }
      return Restored, o;
    }
    InstallLeavesParent(f0, w, ls, x);
    var back: End;
    back, opened'' := SweepAndMove(disk, w.staged, w.root, x.failed, ls, x.rollback, w.root, w.staged,
                                   if o.through then map[] else site);
    if !o.through { KeptFurther(h1, disk.history, |h0|, w.root, w.staged, site); }
    return if back.Done? then InstallFailed else RollbackFailed, o;
  }

  /** Whatever was opened, the directory the site lies in is still there. */
  lemma InstallLeavesParent(fs: Fs, w: Places, ls: Listing, x: SwapFaults)
    requires WellFormed(fs) && w.extracted != [] && w.root != [] && Disjoint(w.extracted, w.root) && w.root !in fs
    requires Parent(w.root) in fs && fs[Parent(w.root)].Dir?
    ensures var i := Installing(fs, w, ls, x); Parent(w.root) in i.fs && i.fs[Parent(w.root)].Dir?
  {
    var c := CopyOf(fs, w.extracted, w.root, ls, x.install);
    CopyGrows(fs, w.extracted, w.root, Conditions(ls, x.install.cut), x.install.steps);
    ParentOutside(w.root, w.extracted);
    assert c.fs[Parent(w.root)].Dir?;
    if x.install.renames && CanRename(fs, w.extracted, w.root) {
      GraftAt(Prune(fs, w.extracted), w.root, Subtree(fs, w.extracted), Parent(w.root));
    }
  }

  lemma RestoredKept(h1: seq<Fs>, h2: seq<Fs>, from: nat, base: Fs, root: Path, staged: Path, site: Tree,
                     restored: Tree)
    requires h1 <= h2 && KeptThroughout(h1, from, root, staged, site) && Confined(h2, |h1|, base, staged)
    requires Covers(Subtree(base, root), restored) && Disjoint(staged, root)
    ensures NothingLost(h2, from, root, staged, site, restored)
  {
    forall i | from <= i < |h2| ensures KeptOrRestored(h2[i], root, staged, site, restored) {
      if i < |h1| { assert h1[i] == h2[i]; } else { SubtreeFrame(h2[i], base, staged, root); }
    }
  }

  lemma MoveLeavesOthers(fs: Fs, src: Path, dst: Path, ls: Listing, m: MoveFaults, p: Path)
    requires WellFormed(fs) && dst != [] && Disjoint(src, dst) && Parent(dst) in fs && fs[Parent(dst)].Dir?
    requires p in fs && fs[p].Dir? && !(src <= p) && !(dst <= p)
    ensures var r := Move(fs, src, dst, ls, m); p in r.fs && r.fs[p].Dir? && (r.end.Done? ==> src !in r.fs)
  {
    if m.renames && CanRename(fs, src, dst) {
      RenameEffect(fs, src, dst);
      GraftAt(Prune(fs, src), dst, Subtree(fs, src), p);
    } else {
      CopyGrows(fs, src, dst, Conditions(ls, m.cut), m.steps);
      assert CopyOf(fs, src, dst, ls, m).fs[p].Dir?;
    }
  }

  /** Moving the live site aside. */
  method StageSite(disk: Disk, w: Places, ls: Listing, x: SwapFaults) returns (end: End, ghost s: Moved)
    requires disk.Valid() && CanRestore(disk.nodes, w) && Lists(ls) && w.root in disk.nodes
    modifies disk
    ensures disk.Valid() && s == Staging(old(disk.nodes), w, ls, x) && disk.nodes == s.fs && end == s.end
    ensures old(disk.history) <= disk.history
    ensures Parent(w.root) in s.fs && s.fs[Parent(w.root)].Dir? && (end.Done? ==> w.root !in s.fs)
    ensures !s.through ==>
      KeptThroughout(disk.history, |old(disk.history)|, w.root, w.staged, Subtree(old(disk.nodes), w.root))
    ensures !s.through && end.Done? ==> Covers(Subtree(s.fs, w.staged), Subtree(old(disk.nodes), w.root))
                                        && Subtree(s.fs, w.extracted) == Subtree(old(disk.nodes), w.extracted)
  {
    ghost var f0, site := disk.nodes, Subtree(disk.nodes, w.root);
    ghost var opened': bool;
    ParentOutside(w.staged, w.root);
    ParentOutside(w.root, w.staged);
    end, opened' := SweepAndMove(disk, w.root, w.staged, x.stale, ls, x.stage, w.root, w.staged, site);
    s := Moved(disk.nodes, end, opened');
    Swept(f0, w.root, w.staged, x.stale);
    MoveLeavesOthers(Cleared(f0, w.staged, x.stale), w.root, w.staged, ls, x.stage, Parent(w.root));
    if !opened' && end.Done? {
      Staged(f0, w, ls, x);
      StagedCovers(Subtree(disk.nodes, w.staged), site, Subtree(f0, w.staged));
    }
  }

  /** Installing where there is no live root. */
  method InstallAlone(disk: Disk, w: Places, ls: Listing, x: SwapFaults) returns (res: Outcome, ghost i: Moved)
    requires disk.Valid() && CanRestore(disk.nodes, w) && Lists(ls)
    modifies disk
    ensures disk.Valid() && i == Installing(old(disk.nodes), w, ls, x) && disk.nodes == i.fs
    ensures res == if i.end.Done? then Restored else InstallFailed
    ensures old(disk.history) <= disk.history
    ensures !i.through ==>
      KeptThroughout(disk.history, |old(disk.history)|, w.root, w.staged, Subtree(old(disk.nodes), w.staged))
  {
    ghost var f0, h0 := disk.nodes, disk.history;
    var end: End;
    ghost var opened': bool;
    end, opened' := MovePath.MovePath(disk, w.extracted, w.root, ls, x.install);
    i := Moved(disk.nodes, end, opened');
    if !opened' {
      InstallKeeps(disk.history, |h0|, f0, w.extracted, w.root, w.staged, Subtree(f0, w.extracted),
                   Subtree(f0, w.staged));
    }
    return if end.Done? then Restored else InstallFailed, i;
  }

  /** The swap, with the archive already extracted and sanitized. */
  method SwapSite(disk: Disk, w: Places, ls: Listing, x: SwapFaults) returns (res: Outcome, ghost o: Swapped)
    requires disk.Valid() && CanRestore(disk.nodes, w) && Lists(ls)
    modifies disk
    ensures disk.Valid() && o == Swap(old(disk.nodes), w, ls, x) && disk.nodes == o.fs && res == o.res
    ensures old(disk.history) <= disk.history
    ensures !o.through ==>
      NothingLost(disk.history, |old(disk.history)|, w.root, w.staged, Subtree(old(disk.nodes), w.root),
                  Subtree(old(disk.nodes), w.extracted))
    ensures !o.through && res != Restored ==>
      KeptThroughout(disk.history, |old(disk.history)|, w.root, w.staged, Subtree(old(disk.nodes), w.root))
    ensures !o.through && w.root !in old(disk.nodes) ==>
      KeptThroughout(disk.history, |old(disk.history)|, w.root, w.staged, Subtree(old(disk.nodes), w.staged))
  {
    ghost var f0, h0, site := disk.nodes, disk.history, Subtree(disk.nodes, w.root);
    o := Swap(f0, w, ls, x);
    RootSeen(f0, w);
    var end: End;
    if !Exists(disk.nodes, w.root) {
      ghost var i;
      res, i := InstallAlone(disk, w, ls, x);
      SubtreeOfAbsent(f0, w.root);
      return res, o;
    }
    ghost var s;
    end, s := StageSite(disk, w, ls, x);
    if !end.Done? { return StageFailed, o; }
    ghost var h1 := disk.history;
    res, o := InstallOrRollBack(disk, w, ls, x, s, w.staged !in Cleared(f0, w.staged, x.stale), site);
    Onward(h0, h1, disk.history);
    if !o.through { LostNothingFurther(res, h1, disk.history, |h0|, w, site, Subtree(f0, w.extracted)); }
  }

  lemma Onward(h0: seq<Fs>, h1: seq<Fs>, h2: seq<Fs>)
    requires h0 <= h1 <= h2
    ensures h0 <= h2
  {
  }

  lemma LostNothingFurther(res: Outcome, h1: seq<Fs>, h2: seq<Fs>, from: nat, w: Places, site: Tree, restored: Tree)
    requires h1 <= h2 && KeptThroughout(h1, from, w.root, w.staged, site)
    requires NothingLost(h2, |h1|, w.root, w.staged, site, restored)
    requires res != Restored ==> KeptThroughout(h2, |h1|, w.root, w.staged, site)
    ensures NothingLost(h2, from, w.root, w.staged, site, restored)
    ensures res != Restored ==> KeptThroughout(h2, from, w.root, w.staged, site)
  {
    forall i | from <= i < |h2|
      ensures KeptOrRestored(h2[i], w.root, w.staged, site, restored)
      ensures res != Restored ==> SiteKept(h2[i], w.root, w.staged, site)
    {
      if i < |h1| { assert h1[i] == h2[i]; }
    }
  }

  // ---- The whole request -------------------------------------------------------------------

  /** The disk after the archive was sanitized. */
  function Prepared(fs: Fs, w: Places, ref: OwnerRef): Fs {
    Graft(fs, w.extracted, ToInstall(Subtree(fs, w.extracted), ref))
  }

  /** The request after extraction, when sanitizing succeeds: the swap, and the deferred
      removal of the temporary directory. */
  function Request(fs: Fs, tmp: Path, w: Places, ref: OwnerRef, ls: Listing, x: SwapFaults): Swapped {
    var o := Swap(Prepared(fs, w, ref), w, ls, x);
    o.(fs := Cleared(o.fs, tmp, x.cleanup))
  }

  lemma PromisedKeeps(o: Swapped, site: Tree, restored: Tree, hadRoot: bool, w: Places)
    requires Promised(o, site, restored, hadRoot, w)
    ensures KeptOrRestored(o.fs, w.root, w.staged, site, restored)
    ensures o.res != Restored ==> SiteKept(o.fs, w.root, w.staged, site)
  {
  }

  lemma PromisedFrame(o: Swapped, site: Tree, restored: Tree, hadRoot: bool, w: Places, tmp: Path, now: Fs)
    requires Promised(o, site, restored, hadRoot, w)
    requires Prune(now, tmp) == Prune(o.fs, tmp) && Disjoint(tmp, w.root) && Disjoint(tmp, w.staged)
    ensures Promised(o.(fs := now), site, restored, hadRoot, w)
  {
    SubtreeFrame(now, o.fs, tmp, w.root);
    SubtreeFrame(now, o.fs, tmp, w.staged);
    PruneFrame(now, o.fs, tmp, w.staged);
  }

  lemma PreparedSame(fs: Fs, w: Places, ref: OwnerRef)
    requires CanRestore(fs, w)
    ensures var g := Prepared(fs, w, ref);
            && Subtree(g, w.root) == Subtree(fs, w.root) && (w.root in g <==> w.root in fs)
            && Subtree(g, w.extracted) == ToInstall(Subtree(fs, w.extracted), ref)
            && (WellFormed(g) ==> CanRestore(g, w))
  {
    var t := ToInstall(Subtree(fs, w.extracted), ref);
    var g := Prepared(fs, w, ref);
    GraftTree(fs, w.extracted, t);
    SubtreeFrame(g, fs, w.extracted, w.root);
    ParentOutside(w.root, w.extracted);
    PruneFrame(g, fs, w.extracted, Parent(w.root));
    PruneFrame(g, fs, w.extracted, w.root);
    assert Prune(g, w.extracted) == Prune(fs, w.extracted);
  }

  /** Unless a symlink was opened: in every state from index `from` on the site is whole
      or the archive is installed, the site is whole as long as the request does not
      succeed, and the outcome is as promised. */
  ghost predicate Safe(o: Swapped, h: seq<Fs>, from: nat, site: Tree, restored: Tree, hadRoot: bool, w: Places) {
    !o.through ==>
      && NothingLost(h, from, w.root, w.staged, site, restored)
      && (o.res != Restored ==> KeptThroughout(h, from, w.root, w.staged, site))
      && Promised(o, site, restored, hadRoot, w)
  }

  // ---- What is installed ------------------------------------------------------------------

  /** A swap that succeeded and opened no symlink put the archive at the root: the tree
      itself if the install could rename it, and otherwise its copy. */
  lemma SwapInstalls(fs: Fs, w: Places, ls: Listing, x: SwapFaults)
    requires CanRestore(fs, w) && Lists(ls) && !Swap(fs, w, ls, x).through && Swap(fs, w, ls, x).res == Restored
    ensures var now, archive := Subtree(Swap(fs, w, ls, x).fs, w.root), Subtree(fs, w.extracted);
            && w.extracted in fs && (if x.install.renames then now == archive else CopiedOver(now, map[], archive))
  {
    RootSeen(fs, w);
    if w.root !in fs {
      SubtreeOfAbsent(fs, w.root);
      MoveOutcome(fs, w.extracted, w.root, ls, x.install);
    } else {
      var s := Staging(fs, w, ls, x);
      Staged(fs, w, ls, x);
      RootOfTree(fs, w.extracted);
      RootOfTree(s.fs, w.extracted);
      SubtreeOfAbsent(s.fs, w.root);
      MoveOutcome(s.fs, w.extracted, w.root, ls, x.install);
      var now := Installing(s.fs, w, ls, x).fs;
      ClearedFrame(now, w.staged, x.discard, w.root);
    }
  }

  /** The site's tree after a successful request, against the archive as it was extracted,
      for a known owner: every ordinary node is there and no other, with its data and its
      permission bits, and no node has a set-id bit. What was renamed belongs to the owner,
      and what was copied to root. With an unknown owner the archive is taken as it is. */
  ghost predicate RestoredFrom(now: Tree, archive: Tree, ref: OwnerRef, renamed: bool) {
    match ref
    case Known(o) =>
      && (forall r :: r in now <==> r in archive && !archive[r].Special?)
      && (forall r :: r in now ==> if renamed then MadeSafe(now[r], archive[r], o) else FreshCopyOf(now[r], archive[r]))
    case Unknown =>
      if renamed then now == archive
      else now.Keys == archive.Keys && forall r :: r in now ==> FreshCopyOf(now[r], archive[r])
  }

  /** A request that succeeded and opened no symlink put the archive at the root. */
  ghost predicate Installs(o: Swapped, archive: Tree, w: Places, ref: OwnerRef, x: SwapFaults) {
    o.res == Restored && !o.through ==> RestoredFrom(Subtree(o.fs, w.root), archive, ref, x.install.renames)
  }

  /** The archive is ready to be installed: each of its nodes made safe, if the owner is known. */
  ghost predicate Readied(prepared: Tree, archive: Tree, ref: OwnerRef) {
    if ref.Known? then MadeSafeTree(prepared, archive, ref.owner) else prepared == archive
  }

  lemma SwapOfReadied(fs: Fs, w: Places, ls: Listing, x: SwapFaults, archive: Tree, ref: OwnerRef)
    requires CanRestore(fs, w) && Lists(ls) && Readied(Subtree(fs, w.extracted), archive, ref)
    ensures Installs(Swap(fs, w, ls, x), archive, w, ref, x)
  {
    var o := Swap(fs, w, ls, x);
    if o.res == Restored && !o.through {
      SwapInstalls(fs, w, ls, x);
      InstalledNodes(Subtree(o.fs, w.root), Subtree(fs, w.extracted), archive, ref, x.install.renames);
    }
  }

  lemma InstalledNodes(now: Tree, prepared: Tree, archive: Tree, ref: OwnerRef, renamed: bool)
    requires Readied(prepared, archive, ref)
    requires if renamed then now == prepared else CopiedOver(now, map[], prepared)
    ensures RestoredFrom(now, archive, ref, renamed)
  {
  }

  /** Nothing at the site's path is special or has a set-id bit, if the owner was known. */
  lemma RestoredIsSafe(now: Tree, archive: Tree, o: Owner, renamed: bool)
    requires RestoredFrom(now, archive, Known(o), renamed)
    ensures forall r :: r in now ==> !now[r].Special? && (!now[r].Link? ==> !now[r].mode.setuid && !now[r].mode.setgid)
    ensures Covers(now, map r | r in archive && !archive[r].Special? :: archive[r])
  {
  }

  /** What a request does to the site, and what it installs, starting on the disk fs. */
  ghost predicate KeepsItsWord(o: Swapped, h: seq<Fs>, from: nat, fs: Fs, w: Places, ref: OwnerRef, x: SwapFaults) {
    var site, archive := Subtree(fs, w.root), Subtree(fs, w.extracted);
    Safe(o, h, from, site, ToInstall(archive, ref), w.root in fs, w) && Installs(o, archive, w, ref, x)
  }

  /** Sanitizing the extracted archive, if the owner is known. */
  method Ready(disk: Disk, w: Places, ref: OwnerRef, y: WalkFaults) returns (ok: bool)
    requires disk.Valid() && CanRestore(disk.nodes, w)
    modifies disk
    ensures disk.Valid() && old(disk.history) <= disk.history
    ensures !ok <==> ref.Known? && !WalkSucceeds(y, old(disk.nodes), w.extracted)
    ensures KeptThroughout(disk.history, |old(disk.history)|, w.root, w.staged, Subtree(old(disk.nodes), w.root))
    ensures Subtree(disk.nodes, w.root) == Subtree(old(disk.nodes), w.root)
    ensures ok ==> disk.nodes == Prepared(old(disk.nodes), w, ref) && CanRestore(disk.nodes, w)
    ensures ok ==> Readied(Subtree(disk.nodes, w.extracted), Subtree(old(disk.nodes), w.extracted), ref)
  {
    ghost var f0, h0 := disk.nodes, disk.history;
    ok := true;
    if ref.Known? { ok := SanitizeTree(disk, w.extracted, ref.owner, y); }
    ElsewhereKeeps(disk.history, |h0|, f0, w.extracted, w.root, w.staged, Subtree(f0, w.root));
    SubtreeFrame(disk.nodes, f0, w.extracted, w.root);
    if ok {
      IsGraft(disk.nodes, f0, w.extracted, ToInstall(Subtree(f0, w.extracted), ref));
      PreparedSame(f0, w, ref);
    }
  }

  lemma SwapIsPastSanitizing(fs: Fs, w: Places, ls: Listing, x: SwapFaults)
    ensures Swap(fs, w, ls, x).res != SanitizeFailed
  {
  }

  /** The word a swap keeps about the readied disk, seen from the start of the request. */
  lemma WordGiven(o: Swapped, h1: seq<Fs>, h2: seq<Fs>, from: nat, fs: Fs, f1: Fs, w: Places, ref: OwnerRef,
                  ls: Listing, x: SwapFaults)
    requires CanRestore(f1, w) && Lists(ls) && o == Swap(f1, w, ls, x) && h1 <= h2
    requires Installs(o, Subtree(fs, w.extracted), w, ref, x)
    requires Subtree(f1, w.root) == Subtree(fs, w.root) && (w.root in f1 <==> w.root in fs)
    requires Subtree(f1, w.extracted) == ToInstall(Subtree(fs, w.extracted), ref)
    requires KeptThroughout(h1, from, w.root, w.staged, Subtree(fs, w.root))
    requires !o.through ==>
      NothingLost(h2, |h1|, w.root, w.staged, Subtree(f1, w.root), Subtree(f1, w.extracted))
    requires !o.through && o.res != Restored ==> KeptThroughout(h2, |h1|, w.root, w.staged, Subtree(f1, w.root))
    ensures KeepsItsWord(o, h2, from, fs, w, ref, x)
  {
    if !o.through {
      SwapKeepsPromises(f1, w, ls, x);
      LostNothingFurther(o.res, h1, h2, from, w, Subtree(f1, w.root), Subtree(f1, w.extracted));
    }
  }

  /** Sanitizing, and the swap. */
  method SanitizeAndSwap(disk: Disk, w: Places, ref: OwnerRef, ls: Listing, y: WalkFaults, x: SwapFaults)
    returns (res: Outcome, ghost o: Swapped)
    requires disk.Valid() && CanRestore(disk.nodes, w) && Lists(ls)
    modifies disk
    ensures disk.Valid() && disk.nodes == o.fs && res == o.res && old(disk.history) <= disk.history
    ensures res != SanitizeFailed ==> o == Swap(Prepared(old(disk.nodes), w, ref), w, ls, x)
    ensures res == SanitizeFailed <==> ref.Known? && !WalkSucceeds(y, old(disk.nodes), w.extracted)
    ensures KeepsItsWord(o, disk.history, |old(disk.history)|, old(disk.nodes), w, ref, x)
  {
    ghost var f0, h0 := disk.nodes, disk.history;
    var ready := Ready(disk, w, ref, y);
    ghost var f1, h1 := disk.nodes, disk.history;
    if !ready {
      o := Swapped(f1, SanitizeFailed, Done, false, true);
      return SanitizeFailed, o;
    }
    PreparedSame(f0, w, ref);
    SwapOfReadied(f1, w, ls, x, Subtree(f0, w.extracted), ref);
    res, o := SwapSite(disk, w, ls, x);
    SwapIsPastSanitizing(f1, w, ls, x);
    Onward(h0, h1, disk.history);
    WordGiven(o, h1, disk.history, |h0|, f0, f1, w, ref, ls, x);
  }

  /** The whole request after extraction: sanitize, swap, and the deferred removal
      of the temporary directory, on every way out. */
  method RestoreBackup(disk: Disk, tmp: Path, w: Places, ref: OwnerRef, ls: Listing, y: WalkFaults, x: SwapFaults)
    returns (res: Outcome, ghost o: Swapped)
    requires disk.Valid() && CanRestore(disk.nodes, w) && Lists(ls)
    requires tmp != [] && tmp <= w.extracted && Disjoint(tmp, w.root) && Disjoint(tmp, w.staged)
    modifies disk
    ensures disk.Valid() && disk.nodes == o.fs && res == o.res && old(disk.history) <= disk.history
    ensures res != SanitizeFailed ==> o == Request(old(disk.nodes), tmp, w, ref, ls, x)
    ensures KeepsItsWord(o, disk.history, |old(disk.history)|, old(disk.nodes), w, ref, x)
    ensures res == SanitizeFailed <==> ref.Known? && !WalkSucceeds(y, old(disk.nodes), w.extracted)
    ensures res == Restored && !o.through ==>
      RestoredFrom(Subtree(disk.nodes, w.root), Subtree(old(disk.nodes), w.extracted), ref, x.install.renames)
    ensures x.cleanup == {} ==> tmp !in disk.nodes
  {
    ghost var f0, h0 := disk.nodes, disk.history;
    res, o := SanitizeAndSwap(disk, w, ref, ls, y, x);
    ghost var h1 := disk.history;
    disk.RemoveAll(tmp, x.cleanup);  // deferred
    ClearedGone(o.fs, tmp, x.cleanup);
    WordKept(o, disk.nodes, h1, disk.history, |h0|, f0, w, ref, x, tmp);
    Onward(h0, h1, disk.history);
    o := o.(fs := disk.nodes);
  }

  lemma WordKept(o: Swapped, now: Fs, h1: seq<Fs>, h2: seq<Fs>, from: nat, fs: Fs, w: Places, ref: OwnerRef,
                 x: SwapFaults, tmp: Path)
    requires from <= |h1| && KeepsItsWord(o, h1, from, fs, w, ref, x) && now == Cleared(o.fs, tmp, x.cleanup)
    requires WellFormed(o.fs) && h1 <= h2 && Confined(h2, |h1|, o.fs, tmp) && Disjoint(tmp, w.root)
             && Disjoint(tmp, w.staged)
    ensures KeepsItsWord(o.(fs := now), h2, from, fs, w, ref, x)
  {
    ClearedShape(o.fs, tmp, x.cleanup);
    CleanedUp(o, now, h1, h2, from, Subtree(fs, w.root), ToInstall(Subtree(fs, w.extracted), ref), w.root in fs, w,
              tmp);
    InstallsFurther(o, now, Subtree(fs, w.extracted), w, ref, x, tmp);
  }

  lemma InstallsFurther(o: Swapped, now: Fs, archive: Tree, w: Places, ref: OwnerRef, x: SwapFaults, tmp: Path)
    requires Installs(o, archive, w, ref, x) && now == Cleared(o.fs, tmp, x.cleanup) && Disjoint(tmp, w.root)
    ensures Installs(o.(fs := now), archive, w, ref, x)
  {
    ClearedFrame(o.fs, tmp, x.cleanup, w.root);
  }

  lemma CleanedUp(o: Swapped, now: Fs, h1: seq<Fs>, h2: seq<Fs>, from: nat, site: Tree, restored: Tree,
                  hadRoot: bool, w: Places, tmp: Path)
    requires from <= |h1| && Safe(o, h1, from, site, restored, hadRoot, w)
    requires WellFormed(o.fs) && h1 <= h2 && Confined(h2, |h1|, o.fs, tmp) && Disjoint(tmp, w.root)
             && Disjoint(tmp, w.staged)
    requires Prune(now, tmp) == Prune(o.fs, tmp)
    ensures Safe(o.(fs := now), h2, from, site, restored, hadRoot, w)
  {
    if !o.through {
      PromisedFrame(o, site, restored, hadRoot, w, tmp, now);
      PromisedKeeps(o, site, restored, hadRoot, w);
      forall i | from <= i < |h2|
        ensures KeptOrRestored(h2[i], w.root, w.staged, site, restored)
        ensures o.res != Restored ==> SiteKept(h2[i], w.root, w.staged, site)
      {
        if i < |h1| {
          assert h1[i] == h2[i];
        } else {
          SubtreeFrame(h2[i], o.fs, tmp, w.root);
          SubtreeFrame(h2[i], o.fs, tmp, w.staged);
        }
      }
    }
  }
}
