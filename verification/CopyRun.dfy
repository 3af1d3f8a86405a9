/** copyPath as a function of the disk and of what goes wrong: how many system
    calls succeed before one fails, and how much of a write interrupted by that is
    stored. Symlinks in the way are followed as the kernel does. */
module CopyRun {
  import opened FileTree
  import opened CopyTree
  import opened DiskState

  /** The order in which os.ReadDir lists a directory, and how much of a write that
      fails is stored. */
  datatype Conditions = Conditions(ls: set<string> -> seq<string>, cut: nat)

  ghost predicate Distinct(names: seq<string>) {
    forall i, j :: 0 <= i < j < |names| ==> names[i] != names[j]
  }

  ghost predicate Lists(ls: set<string> -> seq<string>) {
    forall names :: Distinct(ls(names)) && forall n :: n in ls(names) <==> n in names
  }

  /** The disk a copy leaves, how many calls it could still have made, whether it
      succeeded, and whether it opened a symlink that lay where a file or directory
      was to be made. */
  datatype Copied = Copied(fs: Fs, left: nat, ok: bool, through: bool)

  function CopyNode(fs: Fs, src: Path, dst: Path, e: Conditions, steps: nat): (r: Copied)
    ensures r.left <= steps
    decreases steps, 0
  {
    if steps == 0 || src !in fs then Copied(fs, steps, false, false)
    else
      match fs[src]
      case Link(target, _) =>
        if dst in fs then Copied(fs, steps, false, false)
          else Copied(fs[dst := Link(target, AGENT)], steps - 1, true, false)
      case Special(_, _) => Copied(fs, steps, false, false)
      case File(_, _, mode) => CopyFile(fs, src, dst, mode, e.cut, steps - 1)
      case Dir(_, mode) =>
        var at := MkdirTarget(fs, dst);
        if at.Nowhere? then Copied(fs, steps, false, false)
        else
          var made := Made(fs, dst, at, mode);
          if steps == 1 then Copied(made, 0, false, Behind(fs, dst))
          else
            var r := CopyList(made, src, at.path, e.ls(ChildNames(made, src)), e, steps - 2);
            r.(through := Behind(fs, dst) || r.through)
  }

  /** The entries of a directory, one after the other. */
  function CopyList(fs: Fs, src: Path, dst: Path, names: seq<string>, e: Conditions, steps: nat): (r: Copied)
    ensures r.left <= steps
    decreases steps, |names| + 1
  {
    if names == [] then Copied(fs, steps, true, false)
    else
      var one := CopyNode(fs, src + [names[0]], dst + [names[0]], e, steps);
      if !one.ok then one
      else
        var r := CopyList(one.fs, src, dst, names[1..], e, one.left);
        r.(through := one.through || r.through)
  }

  predicate Behind(fs: Fs, dst: Path) {
    dst in fs && fs[dst].Link?
  }

  function Made(fs: Fs, dst: Path, at: Place, mode: Mode): Fs
    requires at.At?
  {
    if at.path in fs then fs else fs[dst := Dir(AGENT, PermOnly(mode))]
  }

  function Emptied(fs: Fs, q: Path, mode: Mode): Fs
    requires q in fs ==> fs[q].File?
  {
    fs[q := if q in fs then fs[q].(content := "") else File("", AGENT, PermOnly(mode))]
  }

  function Upto(content: string, cut: nat): string {
    if cut <= |content| then content[..cut] else content
  }

  /** The target is opened and emptied first; then the source, as it is by then, is
      stored in it. */
  function CopyFile(fs: Fs, src: Path, dst: Path, mode: Mode, cut: nat, steps: nat): (r: Copied)
    requires src in fs && fs[src].File?
    ensures r.left <= steps
  {
    var at := FileTarget(fs, dst);
    if at.Nowhere? then Copied(fs, steps, false, false)
    else
      var open := Emptied(fs, at.path, mode);
      var content := open[src].content;
      if steps == 0 then Copied(open[at.path := open[at.path].(content := Upto(content, cut))], 0, false,
                                Behind(fs, dst))
      else Copied(open[at.path := open[at.path].(content := content)], steps - 1, true, Behind(fs, dst))
  }

  // ---- A copy only adds ----------------------------------------------------------

  /** Nothing is gone, and of what was there only the content of files has changed. */
  ghost predicate Grown(a: Fs, b: Fs) {
    forall p :: p in a ==>
      p in b && (b[p] == a[p] || (a[p].File? && b[p].File? && b[p] == a[p].(content := b[p].content)))
  }

  lemma GrownTrans(a: Fs, b: Fs, c: Fs)
    requires Grown(a, b) && Grown(b, c)
    ensures Grown(a, c)
  {
  }

  lemma FileGrows(fs: Fs, src: Path, dst: Path, mode: Mode, cut: nat, steps: nat)
    requires WellFormed(fs) && dst != [] && Parent(dst) in fs && fs[Parent(dst)].Dir?
    requires src in fs && fs[src].File?
    ensures var r := CopyFile(fs, src, dst, mode, cut, steps); WellFormed(r.fs) && Grown(fs, r.fs)
  {
    var at := FileTarget(fs, dst);
    if at.At? {
      PrefixClosed(fs, [], Parent(dst));
      if Behind(fs, dst) { LocatedParent(fs, fs[dst].target, MAX_LINK_HOPS - 1); }
      assert at.path != [];
      assert Parent(at.path) in fs && fs[Parent(at.path)].Dir?;
    }
  }

  lemma MadeGrows(fs: Fs, dst: Path, at: Place, mode: Mode)
    requires WellFormed(fs) && dst != [] && Parent(dst) in fs && fs[Parent(dst)].Dir?
    requires at == MkdirTarget(fs, dst) && at.At?
    ensures var made := Made(fs, dst, at, mode);
            WellFormed(made) && Grown(fs, made) && at.path in made && made[at.path].Dir?
  {
    var made := Made(fs, dst, at, mode);
    assert at.path !in fs ==> dst !in fs;
  }

  lemma {:induction false} CopyGrows(fs: Fs, src: Path, dst: Path, e: Conditions, steps: nat)
    requires WellFormed(fs) && dst != [] && Parent(dst) in fs && fs[Parent(dst)].Dir?
    ensures var r := CopyNode(fs, src, dst, e, steps); WellFormed(r.fs) && Grown(fs, r.fs)
    decreases steps, 0
  {
    if steps > 0 && src in fs {
      match fs[src] {
        case Link(_, _) =>
        case Special(_, _) =>
        case File(_, _, mode) => FileGrows(fs, src, dst, mode, e.cut, steps - 1);
        case Dir(_, mode) =>
          var at := MkdirTarget(fs, dst);
          if at.At? {
            MadeGrows(fs, dst, at, mode);
            var made := Made(fs, dst, at, mode);
            if steps > 1 { ListGrows(made, src, at.path, e.ls(ChildNames(made, src)), e, steps - 2); }
          }
      }
    }
  }

  lemma {:induction false} ListGrows(fs: Fs, src: Path, dst: Path, names: seq<string>, e: Conditions, steps: nat)
    requires WellFormed(fs) && dst in fs && fs[dst].Dir?
    ensures var r := CopyList(fs, src, dst, names, e, steps); WellFormed(r.fs) && Grown(fs, r.fs)
    decreases steps, |names| + 1
  {
    if names != [] {
      assert Parent(dst + [names[0]]) == dst;
      CopyGrows(fs, src + [names[0]], dst + [names[0]], e, steps);
      var one := CopyNode(fs, src + [names[0]], dst + [names[0]], e, steps);
      if one.ok {
        ListGrows(one.fs, src, dst, names[1..], e, one.left);
        GrownTrans(fs, one.fs, CopyList(one.fs, src, dst, names[1..], e, one.left).fs);
      }
    }
  }

  // ---- A copy that opens no symlink -------------------------------------------------

  function NameSet(names: seq<string>): set<string> {
    set n | n in names
  }

  lemma FirstNamed(names: seq<string>, done: set<string>)
    requires names != []
    ensures done + {names[0]} + NameSet(names[1..]) == done + NameSet(names)
  {
    assert names == [names[0]] + names[1..];
  }

  /** Nothing but dst changes; the whole source is over what was there when the copy
      succeeds, and a part of it otherwise. */
  ghost predicate CopiesOver(fs: Fs, src: Path, dst: Path, r: Copied) {
    && Prune(r.fs, dst) == Prune(fs, dst)
    && PartialMerge(Subtree(r.fs, dst), Subtree(fs, dst), Subtree(fs, src))
    && (r.ok ==> src in fs && Subtree(r.fs, dst) == Merge(Subtree(fs, dst), Subtree(fs, src)))
  }

  lemma NothingCopied(fs: Fs, src: Path, dst: Path, left: nat)
    ensures CopiesOver(fs, src, dst, Copied(fs, left, false, false))
  {
  }

  lemma {:induction false} CopyResult(fs: Fs, src: Path, dst: Path, e: Conditions, steps: nat)
    requires WellFormed(fs) && Disjoint(src, dst) && dst != [] && Parent(dst) in fs && fs[Parent(dst)].Dir?
             && Lists(e.ls)
    ensures var r := CopyNode(fs, src, dst, e, steps); !r.through ==> CopiesOver(fs, src, dst, r)
    decreases steps, 0
  {
    NothingCopied(fs, src, dst, steps);
    if steps > 0 && src in fs {
      match fs[src] {
        case Link(target, _) => if dst !in fs { LinkCopied(fs, src, dst); }
        case Special(_, _) =>
        case File(_, _, mode) => FileCopied(fs, src, dst, e.cut, steps - 1);
        case Dir(_, mode) =>
          var at := MkdirTarget(fs, dst);
          if at.At? && !Behind(fs, dst) {
            assert at.path == dst;
            var made := Made(fs, dst, at, mode);
            MadeGrows(fs, dst, at, mode);
            MkdirEffect(fs, src, dst);
            MergeOnIsPartial(Subtree(fs, dst), Subtree(fs, src), {});
            if steps > 1 {
              SameNames(fs, made, dst, src);
              var names := e.ls(ChildNames(made, src));
              ListResult(fs, made, src, dst, names, {}, e, steps - 2);
              assert {} + NameSet(names) == ChildNames(fs, src);
              MergeComplete(fs, src, Subtree(fs, dst));
            }
          }
      }
    }
  }

  lemma {:induction false} ListResult(f0: Fs, now: Fs, src: Path, dst: Path, names: seq<string>, done: set<string>,
                                      e: Conditions, steps: nat)
    requires WellFormed(f0) && WellFormed(now) && Disjoint(src, dst) && dst != [] && Lists(e.ls)
    requires src in f0 && f0[src].Dir? && dst in now && now[dst].Dir? && (dst in f0 ==> f0[dst].Dir?)
    requires Prune(now, dst) == Prune(f0, dst) && Subtree(now, dst) == MergeOn(Subtree(f0, dst), Subtree(f0, src), done)
    requires Distinct(names) && forall i :: 0 <= i < |names| ==> names[i] !in done && names[i] in ChildNames(f0, src)
    ensures var r := CopyList(now, src, dst, names, e, steps);
            !r.through ==> && Prune(r.fs, dst) == Prune(f0, dst)
                           && PartialMerge(Subtree(r.fs, dst), Subtree(f0, dst), Subtree(f0, src))
                           && (r.ok ==>
                                 Subtree(r.fs, dst)
                                 == MergeOn(Subtree(f0, dst), Subtree(f0, src), done + NameSet(names)))
    decreases steps, |names| + 1
  {
    MergeOnIsPartial(Subtree(f0, dst), Subtree(f0, src), done);
    if names == [] {
      assert done + NameSet(names) == done;
    } else {
      var n := names[0];
      var one := CopyNode(now, src + [n], dst + [n], e, steps);
      ChildReady(f0, now, src, dst, n, done);
      CopyResult(now, src + [n], dst + [n], e, steps);
      CopyGrows(now, src + [n], dst + [n], e, steps);
      if !one.through {
        EntryCopied(f0, now, one.fs, src, dst, n, done, one.ok);
        if one.ok {
          var rest := names[1..];
          assert forall i :: 0 <= i < |rest| ==> rest[i] == names[i + 1];
          ListResult(f0, one.fs, src, dst, rest, done + {n}, e, one.left);
          FirstNamed(names, done);
        }
      }
    }
  }

  /** What a copy that succeeds and opens no link leaves at dst. */
  ghost predicate Delivers(fs: Fs, src: Path, dst: Path, c: Copied) {
    c.ok && !c.through ==> src in fs && CopiedOver(Subtree(c.fs, dst), Subtree(fs, dst), Subtree(fs, src))
  }

  /** Every copy does. */
  lemma CopyOutcome(fs: Fs, src: Path, dst: Path, e: Conditions, steps: nat)
    requires WellFormed(fs) && Disjoint(src, dst) && dst != [] && Parent(dst) in fs && fs[Parent(dst)].Dir?
             && Lists(e.ls)
    ensures Delivers(fs, src, dst, CopyNode(fs, src, dst, e, steps))
  {
    var c := CopyNode(fs, src, dst, e, steps);
    if c.ok && !c.through {
      CopyResult(fs, src, dst, e, steps);
      CopyGrows(fs, src, dst, e, steps);
      SubtreeGrows(fs, c.fs, dst);
      NothingSpecialCopied(fs, src, dst, e, steps);
      MergedNodes(Subtree(c.fs, dst), Subtree(fs, dst), Subtree(fs, src));
    }
  }

  /** A tree with a special file is never copied completely. */
  lemma {:induction false} NothingSpecialCopied(fs: Fs, src: Path, dst: Path, e: Conditions, steps: nat)
    requires WellFormed(fs) && Disjoint(src, dst) && dst != [] && Parent(dst) in fs && fs[Parent(dst)].Dir?
             && Lists(e.ls)
    ensures var c := CopyNode(fs, src, dst, e, steps); c.ok && !c.through ==> NoSpecial(Subtree(fs, src))
    decreases steps, 0
  {
    var c := CopyNode(fs, src, dst, e, steps);
    if c.ok && !c.through {
      if fs[src].Dir? {
        var at, mode := MkdirTarget(fs, dst), fs[src].mode;
        assert at.path == dst;
        var made := Made(fs, dst, at, mode);
        MadeGrows(fs, dst, at, mode);
        MkdirEffect(fs, src, dst);
        SameNames(fs, made, dst, src);
        var names := e.ls(ChildNames(made, src));
        NothingSpecialListed(fs, made, src, dst, names, {}, e, steps - 2);
        NoSpecialInside(fs, src, names);
      } else {
        LeafTree(fs, src);
      }
    }
  }

  lemma {:induction false} NothingSpecialListed(f0: Fs, now: Fs, src: Path, dst: Path, names: seq<string>,
                                                done: set<string>, e: Conditions, steps: nat)
    requires WellFormed(f0) && WellFormed(now) && Disjoint(src, dst) && dst != [] && Lists(e.ls)
    requires src in f0 && f0[src].Dir? && dst in now && now[dst].Dir? && (dst in f0 ==> f0[dst].Dir?)
    requires Prune(now, dst) == Prune(f0, dst) && Subtree(now, dst) == MergeOn(Subtree(f0, dst), Subtree(f0, src), done)
    requires Distinct(names) && forall i :: 0 <= i < |names| ==> names[i] !in done && names[i] in ChildNames(f0, src)
    requires CopyList(now, src, dst, names, e, steps).ok && !CopyList(now, src, dst, names, e, steps).through
    ensures forall i :: 0 <= i < |names| ==> NoSpecial(Subtree(f0, src + [names[i]]))
    decreases steps, |names| + 1
  {
    if names != [] {
      var n, rest := names[0], names[1..];
      var one := CopyNode(now, src + [n], dst + [n], e, steps);
      ChildReady(f0, now, src, dst, n, done);
      NothingSpecialCopied(now, src + [n], dst + [n], e, steps);
      CopyResult(now, src + [n], dst + [n], e, steps);
      CopyGrows(now, src + [n], dst + [n], e, steps);
      EntryCopied(f0, now, one.fs, src, dst, n, done, one.ok);
      assert forall i :: 0 <= i < |rest| ==> rest[i] == names[i + 1];
      NothingSpecialListed(f0, one.fs, src, dst, rest, done + {n}, e, one.left);
    }
  }

  lemma NoSpecialInside(fs: Fs, p: Path, names: seq<string>)
    requires WellFormed(fs) && p in fs && fs[p].Dir? && forall n :: n in names <==> n in ChildNames(fs, p)
    requires forall i :: 0 <= i < |names| ==> NoSpecial(Subtree(fs, p + [names[i]]))
    ensures NoSpecial(Subtree(fs, p))
  {
    forall r | r in Subtree(fs, p) ensures !Subtree(fs, p)[r].Special? {
      SubtreeAt(fs, p, r);
      if r == [] {
        assert p + [] == p;
      } else {
        assert p + r == p + [r[0]] + r[1..] && p + [r[0]] <= p + r;
        PrefixClosed(fs, p + [r[0]], p + r);
        ChildNamed(fs, p, r[0]);
        var i :| 0 <= i < |names| && names[i] == r[0];
        SubtreeAt(fs, p + [r[0]], r[1..]);
      }
    }
  }

  lemma SubtreeGrows(a: Fs, b: Fs, p: Path)
    requires Grown(a, b)
    ensures Grown(Subtree(a, p), Subtree(b, p))
  {
    forall r | r in Subtree(a, p)
      ensures r in Subtree(b, p) && (Subtree(b, p)[r] == Subtree(a, p)[r] ||
              (Subtree(a, p)[r].File? && Subtree(b, p)[r].File?
               && Subtree(b, p)[r] == Subtree(a, p)[r].(content := Subtree(b, p)[r].content)))
    {
      SubtreeAt(a, p, r);
      SubtreeAt(b, p, r);
    }
  }

  lemma MergedNodes(now: Tree, d: Tree, s: Tree)
    requires now == Merge(d, s) && Grown(d, now) && NoSpecial(s)
    ensures CopiedOver(now, d, s)
  {
  }

  lemma LinkCopied(fs: Fs, src: Path, dst: Path)
    requires WellFormed(fs) && src in fs && fs[src].Link? && dst !in fs
    ensures var r := Copied(fs[dst := Link(fs[src].target, AGENT)], 0, true, false); CopiesOver(fs, src, dst, r)
  {
    var n := Link(fs[src].target, AGENT);
    LeafTree(fs, src);
    SubtreeOfAbsent(fs, dst);
    PutFrame(fs, dst, n);
    var d: Tree := map[][[] := n];
    var s: Tree := map[[] := fs[src]];
    assert d.Keys == s.Keys;
    assert d == Merge(map[], s);
  }

  lemma FileCopied(fs: Fs, src: Path, dst: Path, cut: nat, steps: nat)
    requires WellFormed(fs) && Disjoint(src, dst) && src in fs && fs[src].File?
    ensures var r := CopyFile(fs, src, dst, fs[src].mode, cut, steps); !r.through ==> CopiesOver(fs, src, dst, r)
  {
    var mode, content := fs[src].mode, fs[src].content;
    var at := FileTarget(fs, dst);
    NothingCopied(fs, src, dst, steps);
    if at.At? && !Behind(fs, dst) {
      assert at.path == dst != src;
      var open := Emptied(fs, dst, mode);
      assert open[src] == fs[src];
      LeafTree(fs, src);
      StoredInFile(fs, src, dst, content);
      StoredInFile(fs, src, dst, Upto(content, cut));
    }
  }

  function Stored(fs: Fs, src: Path, dst: Path, written: string): Fs
    requires src in fs && fs[src].File? && (dst in fs ==> fs[dst].File?)
  {
    var open := Emptied(fs, dst, fs[src].mode);
    open[dst := open[dst].(content := written)]
  }

  lemma StoredInFile(fs: Fs, src: Path, dst: Path, written: string)
    requires WellFormed(fs) && src in fs && fs[src].File? && (dst in fs ==> fs[dst].File?) && written <= fs[src].content
    ensures CopiesOver(fs, src, dst, Copied(Stored(fs, src, dst, written), 0, written == fs[src].content, false))
  {
    var f := fs[src];
    var n := if dst in fs then fs[dst].(content := written) else File(written, AGENT, PermOnly(f.mode));
    assert Stored(fs, src, dst, written) == fs[dst := n];
    PutFrame(fs, dst, n);
    LeafTree(fs, src);
    if dst in fs { LeafTree(fs, dst); } else { SubtreeOfAbsent(fs, dst); }
    FileOverFile(Subtree(fs, dst), n, f);
  }

  lemma FileOverFile(d0: Tree, n: Node, f: Node)
    requires f.File? && n.File? && n.content <= f.content
    requires (d0 == map[] && n.owner == AGENT && n.mode == PermOnly(f.mode))
          || ([] in d0 && d0[[]].File? && d0 == map[[] := d0[[]]] && n == d0[[]].(content := n.content))
    ensures PartialMerge(d0[[] := n], d0, map[[] := f])
    ensures n.content == f.content ==> d0[[] := n] == Merge(d0, map[[] := f])
  {
    var s: Tree := map[[] := f];
    var d := d0[[] := n];
    assert d.Keys == d0.Keys + s.Keys == {[]};
    assert Merge(d0, s).Keys == d.Keys;
  }

  /** What one call for entry n does to the directory as a whole. */
  lemma EntryCopied(f0: Fs, before: Fs, after: Fs, src: Path, dst: Path, n: string, done: set<string>, ok: bool)
    requires n !in done && Prune(before, dst) == Prune(f0, dst)
    requires Subtree(before, dst) == MergeOn(Subtree(f0, dst), Subtree(f0, src), done)
    requires Prune(after, dst + [n]) == Prune(before, dst + [n])
    requires ok ==> Subtree(after, dst + [n]) == Merge(Subtree(f0, dst + [n]), Subtree(f0, src + [n]))
    requires PartialMerge(Subtree(after, dst + [n]), Subtree(f0, dst + [n]), Subtree(f0, src + [n]))
    ensures Prune(after, dst) == Prune(f0, dst)
    ensures ok ==> Subtree(after, dst) == MergeOn(Subtree(f0, dst), Subtree(f0, src), done + {n})
    ensures PartialMerge(Subtree(after, dst), Subtree(f0, dst), Subtree(f0, src))
  {
    PruneWiden(after, before, dst, dst + [n]);
    ConfinedToChild(before, after, dst, n);
    BranchesOf(f0, src, dst, n);
    ChildIsBranch(after, dst, n);
    var d0, s, a, b := Subtree(f0, dst), Subtree(f0, src), Subtree(before, dst), Subtree(after, dst);
    var d0n, sn, bn := Subtree(f0, dst + [n]), Subtree(f0, src + [n]), Subtree(after, dst + [n]);
    PartialChild(d0, s, a, b, d0n, sn, bn, n, done);
    if ok { MergeChild(d0, s, a, b, d0n, sn, bn, n, done); }
  }

  lemma BranchesOf(fs: Fs, src: Path, dst: Path, n: string)
    ensures IsBranch(Subtree(fs, src + [n]), Subtree(fs, src), n)
    ensures IsBranch(Subtree(fs, dst + [n]), Subtree(fs, dst), n)
  {
    ChildIsBranch(fs, src, n);
    ChildIsBranch(fs, dst, n);
  }

  /** Making the directory itself is the merge of the top alone. */
  lemma MkdirEffect(fs: Fs, src: Path, dst: Path)
    requires WellFormed(fs) && src in fs && fs[src].Dir? && (dst in fs ==> fs[dst].Dir?)
    ensures var n := if dst in fs then fs[dst] else Dir(AGENT, PermOnly(fs[src].mode));
            && Subtree(fs[dst := n], dst) == MergeOn(Subtree(fs, dst), Subtree(fs, src), {})
            && Prune(fs[dst := n], dst) == Prune(fs, dst)
            && (dst in fs ==> fs[dst := n] == fs)
  {
    var n := if dst in fs then fs[dst] else Dir(AGENT, PermOnly(fs[src].mode));
    PutFrame(fs, dst, n);
    RootOfTree(fs, src);
    RootOfTree(fs, dst);
    TopOnly(Subtree(fs, dst), Subtree(fs, src), n);
  }

  lemma TopOnly(d: Tree, s: Tree, n: Node)
    requires [] in s && s[[]].Dir?
    requires n == if [] in d then d[[]] else ImageNode(s[[]])
    requires [] in d ==> d[[]].Dir?
    ensures d[[] := n] == MergeOn(d, s, {})
  {
  }

  lemma SameNames(a: Fs, b: Fs, p: Path, x: Path)
    requires Prune(a, p) == Prune(b, p) && Disjoint(p, x)
    ensures ChildNames(a, x) == ChildNames(b, x)
  {
    forall n ensures n in ChildNames(a, x) <==> n in ChildNames(b, x) {
      ChildNamed(a, x, n);
      ChildNamed(b, x, n);
      if p <= x + [n] { PrefixesCompare(p, x, x + [n]); }
      PruneFrame(a, b, p, x + [n]);
    }
  }

  /** Everything the copy of entry n may rely on, part-way through the list. */
  lemma ChildReady(f0: Fs, now: Fs, src: Path, dst: Path, n: string, done: set<string>)
    requires Disjoint(src, dst) && n !in done
    requires Prune(now, dst) == Prune(f0, dst)
    requires Subtree(now, dst) == MergeOn(Subtree(f0, dst), Subtree(f0, src), done)
    ensures Disjoint(src + [n], dst + [n]) && Parent(dst + [n]) == dst
    ensures Subtree(now, src + [n]) == Subtree(f0, src + [n]) && Subtree(now, dst + [n]) == Subtree(f0, dst + [n])
  {
    ChildDisjoint(src, dst, n);
    SubtreeFrame(now, f0, dst, src + [n]);
    BranchesOf(f0, src, dst, n);
    ChildIsBranch(now, dst, n);
    UnvisitedChild(Subtree(f0, dst), Subtree(f0, src), Subtree(now, dst), Subtree(f0, dst + [n]),
                   Subtree(now, dst + [n]), n, done);
  }

  lemma ChildDisjoint(src: Path, dst: Path, n: string)
    requires Disjoint(src, dst)
    ensures Disjoint(src + [n], dst + [n]) && Disjoint(dst, src + [n])
  {
    assert src <= src + [n] && dst <= dst + [n];
    if src + [n] <= dst + [n] { PrefixesCompare(src, dst, dst + [n]); }
    if dst + [n] <= src + [n] { PrefixesCompare(src, dst, src + [n]); }
    if dst <= src + [n] { PrefixesCompare(src, dst, src + [n]); }
  }
}
