/** When a copy opens a symlink that lies where a file or directory was to be made:
    which one, on what disk, and what that means for the tree being copied. */
module OpenedLink {
  import opened FileTree
  import opened CopyTree
  import opened DiskState
  import opened CopyRun
  import opened MovePath
  import opened Restore

  /** A link in the way of a file or directory of the source, which the copy can open. */
  ghost predicate GivesWay(g: Fs, src: Path, dst: Path) {
    && src in g && dst in g && g[dst].Link?
    && ((g[src].File? && FileTarget(g, dst).At?) || (g[src].Dir? && MkdirTarget(g, dst).At?))
  }

  /** r is where the copy first opened a link; g is the disk at that moment, which still
      differs from the first one at dst only. */
  ghost predicate OpenedFirst(fs: Fs, g: Fs, src: Path, dst: Path, r: Path) {
    && WellFormed(g) && Prune(g, dst) == Prune(fs, dst) && GivesWay(g, src + r, dst + r)
    && src + r in fs && fs[src + r] == g[src + r] && dst + r in fs && fs[dst + r] == g[dst + r]
  }

  lemma {:induction false} FirstOpened(fs: Fs, src: Path, dst: Path, e: Conditions, steps: nat) returns (r: Path, g: Fs)
    requires WellFormed(fs) && Disjoint(src, dst) && dst != [] && Parent(dst) in fs && fs[Parent(dst)].Dir?
             && Lists(e.ls)
    requires CopyNode(fs, src, dst, e, steps).through
    ensures OpenedFirst(fs, g, src, dst, r)
    decreases steps, 0
  {
    assert src + [] == src && dst + [] == dst;
    if fs[src].File? || Behind(fs, dst) {
      r, g := [], fs;
    } else {
      var at, mode := MkdirTarget(fs, dst), fs[src].mode;
      assert at.path == dst;
      var made := Made(fs, dst, at, mode);
      MadeGrows(fs, dst, at, mode);
      MkdirEffect(fs, src, dst);
      SameNames(fs, made, dst, src);
      r, g := FirstOpenedEntry(fs, made, src, dst, e.ls(ChildNames(made, src)), {}, e, steps - 2);
    }
  }

  lemma {:induction false} FirstOpenedEntry(f0: Fs, now: Fs, src: Path, dst: Path, names: seq<string>,
                                            done: set<string>, e: Conditions, steps: nat)
    returns (r: Path, g: Fs)
    requires WellFormed(f0) && WellFormed(now) && Disjoint(src, dst) && dst != [] && Lists(e.ls)
    requires src in f0 && f0[src].Dir? && dst in now && now[dst].Dir? && (dst in f0 ==> f0[dst].Dir?)
    requires Prune(now, dst) == Prune(f0, dst) && Subtree(now, dst) == MergeOn(Subtree(f0, dst), Subtree(f0, src), done)
    requires Distinct(names) && forall i :: 0 <= i < |names| ==> names[i] !in done && names[i] in ChildNames(f0, src)
    requires CopyList(now, src, dst, names, e, steps).through
    ensures OpenedFirst(f0, g, src, dst, r)
    decreases steps, |names| + 1
  {
    var n, rest := names[0], names[1..];
    var one := CopyNode(now, src + [n], dst + [n], e, steps);
    ChildReady(f0, now, src, dst, n, done);
    if one.through {
      var r';
      r', g := FirstOpened(now, src + [n], dst + [n], e, steps);
      r := [n] + r';
      OpenedBelow(f0, now, g, src, dst, n, r');
    } else {
      CopyResult(now, src + [n], dst + [n], e, steps);
      CopyGrows(now, src + [n], dst + [n], e, steps);
      EntryCopied(f0, now, one.fs, src, dst, n, done, one.ok);
      assert forall i :: 0 <= i < |rest| ==> rest[i] == names[i + 1];
      r, g := FirstOpenedEntry(f0, one.fs, src, dst, rest, done + {n}, e, one.left);
    }
  }

  lemma OpenedBelow(f0: Fs, now: Fs, g: Fs, src: Path, dst: Path, n: string, r: Path)
    requires OpenedFirst(now, g, src + [n], dst + [n], r) && Prune(now, dst) == Prune(f0, dst)
    requires Subtree(now, src + [n]) == Subtree(f0, src + [n]) && Subtree(now, dst + [n]) == Subtree(f0, dst + [n])
    ensures OpenedFirst(f0, g, src, dst, [n] + r)
  {
    assert src + ([n] + r) == (src + [n]) + r && dst + ([n] + r) == (dst + [n]) + r;
    SubtreeAt(now, src + [n], r);
    SubtreeAt(f0, src + [n], r);
    SubtreeAt(now, dst + [n], r);
    SubtreeAt(f0, dst + [n], r);
    assert dst <= dst + [n];
    PruneWiden(g, now, dst, dst + [n]);
  }

  /** Onto nothing a copy opens no link. */
  lemma FreshOpensNothing(fs: Fs, src: Path, dst: Path, e: Conditions, steps: nat)
    requires WellFormed(fs) && Disjoint(src, dst) && dst != [] && Parent(dst) in fs && fs[Parent(dst)].Dir?
             && Lists(e.ls)
    requires dst !in fs
    ensures !CopyNode(fs, src, dst, e, steps).through
  {
    if CopyNode(fs, src, dst, e, steps).through {
      var r, g := FirstOpened(fs, src, dst, e, steps);
      PrefixClosed(fs, dst, dst + r);
    }
  }

  lemma FreshMoveOpensNothing(fs: Fs, src: Path, dst: Path, ls: Listing, m: MoveFaults)
    requires WellFormed(fs) && Disjoint(src, dst) && dst != [] && Parent(dst) in fs && fs[Parent(dst)].Dir? && Lists(ls)
    requires dst !in fs
    ensures !Move(fs, src, dst, ls, m).through
  {
    FreshOpensNothing(fs, src, dst, Conditions(ls, m.cut), m.steps);
  }

  /** A link that was opened stays a link: the destination never holds that node. */
  lemma OpenedNeverCovers(fs: Fs, src: Path, dst: Path, e: Conditions, steps: nat)
    requires WellFormed(fs) && Disjoint(src, dst) && dst != [] && Parent(dst) in fs && fs[Parent(dst)].Dir?
             && Lists(e.ls)
    requires CopyNode(fs, src, dst, e, steps).through
    ensures !Covers(Subtree(CopyNode(fs, src, dst, e, steps).fs, dst), Subtree(fs, src))
  {
    var r, g := FirstOpened(fs, src, dst, e, steps);
    var c := CopyNode(fs, src, dst, e, steps);
    CopyGrows(fs, src, dst, e, steps);
    SubtreeAt(fs, src, r);
    SubtreeAt(c.fs, dst, r);
    assert c.fs[dst + r].Link?;
    assert !SameData(Subtree(c.fs, dst)[r], Subtree(fs, src)[r]);
  }

  /** Without a link where the source has a file or directory, none is opened. */
  lemma NoClashOpensNothing(fs: Fs, src: Path, dst: Path, e: Conditions, steps: nat)
    requires WellFormed(fs) && Disjoint(src, dst) && dst != [] && Parent(dst) in fs && fs[Parent(dst)].Dir?
             && Lists(e.ls)
    requires forall r :: r in Subtree(fs, src) && r in Subtree(fs, dst) && Subtree(fs, dst)[r].Link? ==>
               !Subtree(fs, src)[r].File? && !Subtree(fs, src)[r].Dir?
    ensures !CopyNode(fs, src, dst, e, steps).through
  {
    if CopyNode(fs, src, dst, e, steps).through {
      var r, g := FirstOpened(fs, src, dst, e, steps);
      SubtreeAt(fs, src, r);
      SubtreeAt(fs, dst, r);
    }
  }

  // ---- Links that point elsewhere -------------------------------------------------------

  predicate Elsewhere(w: Places, q: Path) {
    !(w.extracted <= q) && !(w.root <= q) && !(w.staged <= q)
  }

  ghost predicate AlikeElsewhere(a: Fs, b: Fs, w: Places) {
    forall q :: Elsewhere(w, q) ==> (q in a <==> q in b) && (q in a ==> a[q] == b[q])
  }

  /** Nothing that is looked up to resolve p lies in one of the three places. */
  predicate StaysOut(fs: Fs, p: Path, hops: nat, w: Places)
    decreases hops, |p|
  {
    p == [] ||
    (StaysOut(fs, Parent(p), hops, w) &&
     match Locate(fs, Parent(p), hops)
     case Nowhere => true
     case At(dir, left) =>
       var q := dir + [p[|p| - 1]];
       && Elsewhere(w, q)
       && (q in fs && fs[q].Link? && left > 0 ==> StaysOut(fs, fs[q].target, left - 1, w)))
  }

  /** Such a path leads to the same place however the three places change. */
  lemma {:induction false} SameLocation(a: Fs, b: Fs, p: Path, hops: nat, w: Places)
    requires w.extracted != [] && w.root != [] && w.staged != []
    requires AlikeElsewhere(a, b, w) && StaysOut(a, p, hops, w)
    ensures Locate(b, p, hops) == Locate(a, p, hops)
    ensures Locate(a, p, hops).At? ==> Elsewhere(w, Locate(a, p, hops).path)
    decreases hops, |p|
  {
    if p != [] {
      SameLocation(a, b, Parent(p), hops, w);
      match Locate(a, Parent(p), hops)
      case Nowhere =>
      case At(dir, left) =>
        var q := dir + [p[|p| - 1]];
        assert Elsewhere(w, q) && Elsewhere(w, dir);
        if dir !in a || !a[dir].Dir? {
          assert Locate(a, p, hops) == Nowhere == Locate(b, p, hops);
        } else if q in a && a[q].Link? && left > 0 {
          SameLocation(a, b, a[q].target, left - 1, w);
          assert Locate(a, p, hops) == Locate(a, a[q].target, left - 1);
          assert Locate(b, p, hops) == Locate(b, b[q].target, left - 1);
        } else {
          assert Locate(a, p, hops) == (if q in a && a[q].Link? then Nowhere else At(q, left)) == Locate(b, p, hops);
        }
    }
  }

  /** A link to `target` can be opened where `node` was to be made: it leads to a file
      or a free place for a file, or to a directory for a directory. */
  predicate Opens(fs: Fs, target: Path, node: Node) {
    var at := Locate(fs, target, MAX_LINK_HOPS - 1);
    && at.At?
    && ((node.File? && (at.path in fs ==> fs[at.path].File?)) || (node.Dir? && at.path in fs && fs[at.path].Dir?))
  }

  lemma OpensAlike(a: Fs, b: Fs, target: Path, node: Node, w: Places)
    requires w.extracted != [] && w.root != [] && w.staged != []
    requires AlikeElsewhere(a, b, w) && StaysOut(a, target, MAX_LINK_HOPS - 1, w)
    ensures Opens(b, target, node) == Opens(a, target, node)
  {
    SameLocation(a, b, target, MAX_LINK_HOPS - 1, w);
  }

  /** A link that gave way opens. */
  lemma GaveWay(g: Fs, src: Path, dst: Path)
    requires WellFormed(g) && GivesWay(g, src, dst)
    ensures Opens(g, g[dst].target, g[src])
  {
  }
}
