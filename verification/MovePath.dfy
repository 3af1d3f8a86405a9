/** copyPath and movePath: the recursive copy and the rename-or-copy move. */
module MovePath {
  import opened FileTree
  import opened CopyTree
  import opened DiskState
  import opened CopyRun

  /** Copies src to dst. Unless it opens a symlink that lies in its way, no state in
      between differs from the first one anywhere but at dst. */
  method CopyPath(disk: Disk, src: Path, dst: Path, e: Conditions, steps: nat)
    returns (left: nat, ok: bool, ghost through: bool)
    requires disk.Valid() && dst != [] && Parent(dst) in disk.nodes && disk.nodes[Parent(dst)].Dir?
    modifies disk
    ensures disk.Valid() && Copied(disk.nodes, left, ok, through) == CopyNode(old(disk.nodes), src, dst, e, steps)
    ensures old(disk.history) <= disk.history
    ensures !through ==> Confined(disk.history, |old(disk.history)|, old(disk.nodes), dst)
    decreases steps, 0
  {
    ghost var f0 := disk.nodes;
    if steps == 0 || src !in disk.nodes { return steps, false, false; }
    match disk.nodes[src] {
      case Link(target, _) =>
        if dst in disk.nodes { return steps, false, false; }
        PutFrame(f0, dst, Link(target, AGENT));
        disk.Put(dst, Link(target, AGENT));
        return steps - 1, true, false;
      case Special(_, _) =>
        return steps, false, false;
      case File(_, _, mode) =>
        left, ok, through := CopyContent(disk, src, dst, mode, e.cut, steps - 1);
      case Dir(_, mode) =>
        var at := MkdirAll(disk, dst, mode);
        if at.Nowhere? { return steps, false, false; }
        through := Behind(f0, dst);
        if steps == 1 { return 0, false, through; }
        ghost var h, f1 := disk.history, disk.nodes;
        ghost var inside: bool;
        left, ok, inside := CopyEntries(disk, src, at.path, e, steps - 2);
        through := through || inside;
        if !through { ConfinedOn(h, disk.history, |old(disk.history)|, f0, f1, dst); }
    }
  }

  /** os.MkdirAll, for a path whose parent is a directory. */
  method MkdirAll(disk: Disk, dst: Path, mode: Mode) returns (at: Place)
    requires disk.Valid() && dst != [] && Parent(dst) in disk.nodes && disk.nodes[Parent(dst)].Dir?
    modifies disk
    ensures disk.Valid() && at == MkdirTarget(old(disk.nodes), dst)
    ensures disk.nodes == if at.At? then Made(old(disk.nodes), dst, at, mode) else old(disk.nodes)
    ensures at.At? ==> at.path in disk.nodes && disk.nodes[at.path].Dir?
    ensures old(disk.history) <= disk.history
    ensures Confined(disk.history, |old(disk.history)|, old(disk.nodes), dst)
            && Prune(disk.nodes, dst) == Prune(old(disk.nodes), dst)
  {
    ghost var f0 := disk.nodes;
    at := MkdirTarget(disk.nodes, dst);
    if at.Nowhere? { return at; }
    MadeGrows(f0, dst, at, mode);
    if at.path !in disk.nodes {
      PutFrame(f0, dst, Dir(AGENT, PermOnly(mode)));
      disk.Put(dst, Dir(AGENT, PermOnly(mode)));
    }
  }

  /** The loop over a directory's entries. */
  method CopyEntries(disk: Disk, src: Path, dst: Path, e: Conditions, steps: nat)
    returns (left: nat, ok: bool, ghost through: bool)
    requires disk.Valid() && dst in disk.nodes && disk.nodes[dst].Dir?
    modifies disk
    ensures disk.Valid()
    ensures Copied(disk.nodes, left, ok, through)
         == CopyList(old(disk.nodes), src, dst, e.ls(ChildNames(old(disk.nodes), src)), e, steps)
    ensures old(disk.history) <= disk.history
    ensures !through ==> Confined(disk.history, |old(disk.history)|, old(disk.nodes), dst)
    decreases steps, 1
  {
    ghost var f0, h0 := disk.nodes, disk.history;
    var names := e.ls(ChildNames(disk.nodes, src));
    left, through := steps, false;
    var i := 0;
    while i < |names|
      invariant i <= |names| && left <= steps && disk.Valid() && dst in disk.nodes && disk.nodes[dst].Dir?
      invariant CopyList(f0, src, dst, names, e, steps)
                == Later(CopyList(disk.nodes, src, dst, names[i..], e, left), through)
      invariant h0 <= disk.history
      invariant !through ==> Prune(disk.nodes, dst) == Prune(f0, dst) && Confined(disk.history, |h0|, f0, dst)
    {
      ghost var before, h := disk.nodes, disk.history;
      var n := names[i];
      assert names[i..][0] == n && names[i..][1..] == names[i + 1..];
      assert Parent(dst + [n]) == dst && dst <= dst + [n];
      CopyGrows(before, src + [n], dst + [n], e, left);
      ghost var opened': bool;
      left, ok, opened' := CopyPath(disk, src + [n], dst + [n], e, left);
      if !through && !opened' { ConfinedBelow(h, disk.history, |h0|, f0, before, dst, n); }
      through := through || opened';
      if !ok { return; }
      i := i + 1;
    }
    ok := true;
  }

  function Later(r: Copied, through: bool): Copied {
    r.(through := through || r.through)
  }

  lemma ConfinedOn(h1: seq<Fs>, h2: seq<Fs>, from: nat, base: Fs, made: Fs, dst: Path)
    requires h1 <= h2 && Confined(h1, from, base, dst) && Confined(h2, |h1|, made, dst)
             && Prune(made, dst) == Prune(base, dst)
    ensures Confined(h2, from, base, dst)
  {
    forall i | from <= i < |h2| ensures Prune(h2[i], dst) == Prune(base, dst) {
      if i < |h1| { assert h1[i] == h2[i]; }
    }
  }

  lemma ConfinedBelow(h1: seq<Fs>, h2: seq<Fs>, from: nat, base: Fs, before: Fs, dst: Path, n: string)
    requires h1 <= h2 && h2 != [] && from <= |h1|
    requires Confined(h1, from, base, dst) && Confined(h2, |h1|, before, dst + [n])
             && Prune(before, dst) == Prune(base, dst)
    requires |h1| == |h2| ==> h2[|h2| - 1] == before
    ensures Confined(h2, from, base, dst) && Prune(h2[|h2| - 1], dst) == Prune(base, dst)
  {
    assert dst <= dst + [n];
    ConfinedWiden(h2, |h1|, before, base, dst, dst + [n]);
    ConfinedJoin(h1, h2, from, base, dst);
  }

  /** Opening the target, and filling it from the source. */
  method CopyContent(disk: Disk, src: Path, dst: Path, mode: Mode, cut: nat, steps: nat)
    returns (left: nat, ok: bool, ghost through: bool)
    requires disk.Valid() && dst != [] && Parent(dst) in disk.nodes && disk.nodes[Parent(dst)].Dir?
    requires src in disk.nodes && disk.nodes[src].File?
    modifies disk
    ensures disk.Valid() && Copied(disk.nodes, left, ok, through)
            == CopyFile(old(disk.nodes), src, dst, mode, cut, steps)
    ensures old(disk.history) <= disk.history
    ensures !through ==> Confined(disk.history, |old(disk.history)|, old(disk.nodes), dst)
  {
    ghost var f0 := disk.nodes;
    var at := FileTarget(disk.nodes, dst);
    if at.Nowhere? { return steps, false, false; }
    through := Behind(f0, dst);
    var q := at.path;
    TargetIsFree(f0, dst);
    var emptied := if q in disk.nodes then disk.nodes[q].(content := "") else File("", AGENT, PermOnly(mode));
    PutFrame(f0, q, emptied);
    disk.Put(q, emptied);
    var content := disk.nodes[src].content;
    var stored := emptied.(content := if steps == 0 then Upto(content, cut) else content);
    PutFrame(disk.nodes, q, stored);
    disk.Put(q, stored);
    if steps == 0 { return 0, false, through; }
    return steps - 1, true, through;
  }

  lemma TargetIsFree(fs: Fs, dst: Path)
    requires WellFormed(fs) && dst != [] && Parent(dst) in fs && fs[Parent(dst)].Dir? && FileTarget(fs, dst).At?
    ensures var q := FileTarget(fs, dst).path; q != [] && Parent(q) in fs && fs[Parent(q)].Dir?
  {
    PrefixClosed(fs, [], Parent(dst));
    if Behind(fs, dst) { LocatedParent(fs, fs[dst].target, MAX_LINK_HOPS - 1); }
  }

  // ---- Moving -------------------------------------------------------------------------

  /** What goes wrong in one move: whether the rename works, where the copy stops, and
      what cannot be removed afterwards. */
  datatype MoveFaults = MoveFaults(renames: bool, steps: nat, cut: nat, stuck: set<Path>)

  datatype End = Done | CopyFailed | RemovalFailed

  datatype Moved = Moved(fs: Fs, end: End, through: bool)

  function CopyOf(fs: Fs, src: Path, dst: Path, ls: set<string> -> seq<string>, m: MoveFaults): Copied {
    CopyNode(fs, src, dst, Conditions(ls, m.cut), m.steps)
  }

  function Move(fs: Fs, src: Path, dst: Path, ls: set<string> -> seq<string>, m: MoveFaults): Moved {
    if m.renames && CanRename(fs, src, dst) then Moved(Renamed(fs, src, dst), Done, false)
    else
      var c := CopyOf(fs, src, dst, ls, m);
      if !c.ok then Moved(c.fs, CopyFailed, c.through)
      else
        var left := Cleared(c.fs, src, m.stuck);
        Moved(left, if src in left then RemovalFailed else Done, c.through)
  }

  /** What a move that opened no symlink did to the tree s over d: moved it, copied a
      part of it, or copied all of it and removed a part of the original. */
  ghost predicate MovesTree(s: Tree, d: Tree, s': Tree, d': Tree, end: End) {
    match end
    case Done => s' == map[] && (d' == s || d' == Merge(d, s))
    case CopyFailed => s' == s && PartialMerge(d', d, s)
    case RemovalFailed => SubtreeOf(s', s) && [] in s' && d' == Merge(d, s)
  }

  lemma MoveShape(fs: Fs, src: Path, dst: Path, ls: set<string> -> seq<string>, m: MoveFaults)
    requires WellFormed(fs) && Disjoint(src, dst) && dst != [] && Parent(dst) in fs && fs[Parent(dst)].Dir?
    ensures WellFormed(Move(fs, src, dst, ls, m).fs)
  {
    if m.renames && CanRename(fs, src, dst) {
      RenameKeepsShape(fs, src, dst);
    } else {
      var c := CopyOf(fs, src, dst, ls, m);
      CopyGrows(fs, src, dst, Conditions(ls, m.cut), m.steps);
      ClearedShape(c.fs, src, m.stuck);
    }
  }

  /** A move that opened no symlink changes its two places only, and moves the tree or
      leaves it whole at one of them. */
  lemma MoveResult(fs: Fs, src: Path, dst: Path, ls: set<string> -> seq<string>, m: MoveFaults)
    requires WellFormed(fs) && Disjoint(src, dst) && dst != [] && Parent(dst) in fs && fs[Parent(dst)].Dir? && Lists(ls)
    requires !Move(fs, src, dst, ls, m).through
    ensures var r := Move(fs, src, dst, ls, m);
            && Prune(Prune(r.fs, src), dst) == Prune(Prune(fs, src), dst)
            && MovesTree(Subtree(fs, src), Subtree(fs, dst), Subtree(r.fs, src), Subtree(r.fs, dst), r.end)
            && (r.end.Done? ==> src in fs && src !in r.fs)
  {
    var r := Move(fs, src, dst, ls, m);
    MoveShape(fs, src, dst, ls, m);
    if m.renames && CanRename(fs, src, dst) {
      RenameEffect(fs, src, dst);
      SubtreeOfAbsent(r.fs, src);
    } else {
      CopiedMove(fs, src, dst, CopyOf(fs, src, dst, ls, m), r, ls, m);
    }
  }

  lemma CopiedMove(fs: Fs, src: Path, dst: Path, c: Copied, r: Moved, ls: set<string> -> seq<string>, m: MoveFaults)
    requires WellFormed(fs) && Disjoint(src, dst) && dst != [] && Parent(dst) in fs && fs[Parent(dst)].Dir? && Lists(ls)
    requires c == CopyOf(fs, src, dst, ls, m) && !c.through && !(m.renames && CanRename(fs, src, dst))
    requires r == Move(fs, src, dst, ls, m)
    ensures Prune(Prune(r.fs, src), dst) == Prune(Prune(fs, src), dst)
    ensures MovesTree(Subtree(fs, src), Subtree(fs, dst), Subtree(r.fs, src), Subtree(r.fs, dst), r.end)
    ensures r.end.Done? ==> src in fs && src !in r.fs
  {
    CopyResult(fs, src, dst, Conditions(ls, m.cut), m.steps);
    CopyGrows(fs, src, dst, Conditions(ls, m.cut), m.steps);
    SubtreeFrame(c.fs, fs, dst, src);
    PruneBoth(c.fs, fs, src, dst);
    if c.ok {
      ClearedShape(c.fs, src, m.stuck);
      SubtreeFrame(r.fs, c.fs, src, dst);
      RootOfTree(r.fs, src);
      if src !in r.fs { SubtreeOfAbsent(r.fs, src); }
    }
  }

  // ---- Every state of a move ------------------------------------------------------------

  /** What a completed move that opened no symlink put at dst: the tree itself when it was
      renamed, which a directory on either side of something that is there prevents, and
      else the tree copied over what was there. */
  ghost predicate Arrives(fs: Fs, now: Fs, src: Path, dst: Path, renames: bool) {
    && src in fs
    && if renames && !(dst in fs && (fs[dst].Dir? || fs[src].Dir?)) then Subtree(now, dst) == Subtree(fs, src)
       else CopiedOver(Subtree(now, dst), Subtree(fs, dst), Subtree(fs, src))
  }

  lemma MoveOutcome(fs: Fs, src: Path, dst: Path, ls: set<string> -> seq<string>, m: MoveFaults)
    requires WellFormed(fs) && Disjoint(src, dst) && dst != [] && Parent(dst) in fs && fs[Parent(dst)].Dir? && Lists(ls)
    ensures var r := Move(fs, src, dst, ls, m);
            r.end.Done? && !r.through ==> Arrives(fs, r.fs, src, dst, m.renames) && src !in r.fs
  {
    var r, c := Move(fs, src, dst, ls, m), CopyOf(fs, src, dst, ls, m);
    if m.renames && CanRename(fs, src, dst) {
      RenameEffect(fs, src, dst);
    } else if r.end.Done? && !r.through {
      CopyOutcome(fs, src, dst, Conditions(ls, m.cut), m.steps);
      CopyGrows(fs, src, dst, Conditions(ls, m.cut), m.steps);
      ClearedShape(c.fs, src, m.stuck);
      SubtreeFrame(Cleared(c.fs, src, m.stuck), c.fs, src, dst);
    }
  }

  /** In every state from index `from` on, t is whole at src or all its data is at
      dst, and nothing else has changed. */
  ghost predicate KeptAtOneEnd(h: seq<Fs>, from: nat, base: Fs, src: Path, dst: Path, t: Tree) {
    forall i :: from <= i < |h| ==>
      && Prune(Prune(h[i], src), dst) == Prune(Prune(base, src), dst)
      && (Subtree(h[i], src) == t || Covers(Subtree(h[i], dst), t))
  }

  /** Changes at dst only leave the tree whole at src. */
  lemma KeptAtSource(h: seq<Fs>, from: nat, base: Fs, src: Path, dst: Path)
    requires Confined(h, from, base, dst) && Disjoint(src, dst)
    ensures KeptAtOneEnd(h, from, base, src, dst, Subtree(base, src))
  {
    forall i | from <= i < |h|
      ensures Prune(Prune(h[i], src), dst) == Prune(Prune(base, src), dst) && Subtree(h[i], src) == Subtree(base, src)
    {
      SubtreeFrame(h[i], base, dst, src);
      PruneBoth(h[i], base, src, dst);
    }
  }

  /** Changes at src only leave its data at dst, once it is there. */
  lemma KeptAtTarget(h: seq<Fs>, from: nat, copied: Fs, base: Fs, src: Path, dst: Path, t: Tree)
    requires Confined(h, from, copied, src) && Disjoint(src, dst) && Covers(Subtree(copied, dst), t)
    requires Prune(Prune(copied, src), dst) == Prune(Prune(base, src), dst)
    ensures KeptAtOneEnd(h, from, base, src, dst, t)
  {
    forall i | from <= i < |h|
      ensures Prune(Prune(h[i], src), dst) == Prune(Prune(base, src), dst) && Covers(Subtree(h[i], dst), t)
    {
      SubtreeFrame(h[i], copied, src, dst);
    }
  }

  lemma KeptByRename(h: seq<Fs>, base: Fs, renamed: Fs, src: Path, dst: Path, t: Tree)
    requires Prune(Prune(renamed, src), dst) == Prune(Prune(base, src), dst) && Subtree(renamed, dst) == t
    ensures h <= h + [renamed] && KeptAtOneEnd(h + [renamed], |h|, base, src, dst, t)
  {
  }

  lemma KeptAfterCopy(h0: seq<Fs>, h1: seq<Fs>, h2: seq<Fs>, base: Fs, copied: Fs, src: Path, dst: Path, t: Tree)
    requires h0 <= h1 <= h2 && KeptAtOneEnd(h1, |h0|, base, src, dst, t) && KeptAtOneEnd(h2, |h1|, base, src, dst, t)
    ensures KeptAtOneEnd(h2, |h0|, base, src, dst, t) && h0 <= h2
  {
    forall i | |h0| <= i < |h2|
      ensures Prune(Prune(h2[i], src), dst) == Prune(Prune(base, src), dst)
      ensures Subtree(h2[i], src) == t || Covers(Subtree(h2[i], dst), t)
    {
      if i < |h1| { assert h1[i] == h2[i]; }
    }
  }

  /** os.Rename, and if that fails a copy followed by removing the source. */
  method MovePath(disk: Disk, src: Path, dst: Path, ls: set<string> -> seq<string>, m: MoveFaults)
    returns (end: End, ghost through: bool)
    requires disk.Valid() && Disjoint(src, dst) && src != [] && dst != [] && Lists(ls)
    requires Parent(dst) in disk.nodes && disk.nodes[Parent(dst)].Dir?
    modifies disk
    ensures disk.Valid() && Moved(disk.nodes, end, through) == Move(old(disk.nodes), src, dst, ls, m)
    ensures old(disk.history) <= disk.history
    ensures !through ==>
      KeptAtOneEnd(disk.history, |old(disk.history)|, old(disk.nodes), src, dst, Subtree(old(disk.nodes), src))
    ensures end.Done? && !through ==> Arrives(old(disk.nodes), disk.nodes, src, dst, m.renames) && src !in disk.nodes
  {
    ghost var f0, h0 := disk.nodes, disk.history;
    MoveOutcome(f0, src, dst, ls, m);
    ghost var s := Subtree(f0, src);
    through := false;
    var ok := disk.Rename(src, dst, m.renames);
    if ok {
      RenameEffect(f0, src, dst);
      KeptByRename(h0, f0, disk.nodes, src, dst, s);
      return Done, false;
    }
    var left: nat;
    left, ok, through := CopyPath(disk, src, dst, Conditions(ls, m.cut), m.steps);
    ghost var f1, h1 := disk.nodes, disk.history;
    if !through { KeptAtSource(h1, |h0|, f0, src, dst); }
    if !ok { return CopyFailed, through; }
    disk.RemoveAll(src, m.stuck);
    if !through {
      CopyResult(f0, src, dst, Conditions(ls, m.cut), m.steps);
      PruneBoth(f1, f0, src, dst);
      MergeCovers(Subtree(f0, dst), s);
      KeptAtTarget(disk.history, |h1|, f1, f0, src, dst, s);
      KeptAfterCopy(h0, h1, disk.history, f0, f1, src, dst, s);
    }
    end := if src in disk.nodes then RemovalFailed else Done;
  }
}
