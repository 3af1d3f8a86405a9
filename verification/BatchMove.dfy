/** moveEntries: moving a list of files and folders into one directory, on a tree
    of files and directories. */
module BatchMove {
  import opened Strings
  import opened CleanPath
  import opened SafePath
  import opened FileTree
  import opened DiskState

  // ---- Conservation -----------------------------------------------------------

  /** Where every node went, and where every node came from. */
  datatype Shift = Shift(to: map<Path, Path>, from: map<Path, Path>)

  /** The nodes of a and those of b correspond one to one and are the same. */
  ghost predicate Relocated(a: Fs, b: Fs, m: Shift) {
    && m.to.Keys == a.Keys && m.from.Keys == b.Keys
    && (forall x :: x in a ==> m.to[x] in b && b[m.to[x]] == a[x] && m.from[m.to[x]] == x)
    && (forall p :: p in b ==> m.from[p] in a && m.to[m.from[p]] == p)
  }

  function Unmoved(fs: Fs): Shift {
    Shift(map p | p in fs :: p, map p | p in fs :: p)
  }

  function RenameShift(fs: Fs, src: Path, dst: Path): Shift {
    Shift(map x | x in fs :: if src <= x then dst + x[|src|..] else x,
          map p | p in Renamed(fs, src, dst) :: if dst <= p then src + p[|dst|..] else p)
  }

  function Compose(m: Shift, n: Shift): Shift {
    Shift(map x | x in m.to && m.to[x] in n.to :: n.to[m.to[x]],
          map p | p in n.from && n.from[p] in m.from :: m.from[n.from[p]])
  }

  lemma RelocatedSelf(fs: Fs)
    ensures Relocated(fs, fs, Unmoved(fs))
  {
  }

  lemma ComposedTo(a: Fs, b: Fs, c: Fs, m: Shift, n: Shift, x: Path)
    requires Relocated(a, b, m) && Relocated(b, c, n)
    ensures x in Compose(m, n).to <==> x in a
    ensures x in a ==> Compose(m, n).to[x] == n.to[m.to[x]]
  {
    assert x in a <==> x in m.to.Keys;
    if x in a { assert m.to[x] in n.to.Keys; }
  }

  lemma ComposedFrom(a: Fs, b: Fs, c: Fs, m: Shift, n: Shift, p: Path)
    requires Relocated(a, b, m) && Relocated(b, c, n)
    ensures p in Compose(m, n).from <==> p in c
    ensures p in c ==> Compose(m, n).from[p] == m.from[n.from[p]]
  {
    assert p in c <==> p in n.from.Keys;
    if p in c { assert n.from[p] in m.from.Keys; }
  }

  lemma RelocatedTrans(a: Fs, b: Fs, c: Fs, m: Shift, n: Shift)
    requires Relocated(a, b, m) && Relocated(b, c, n)
    ensures Relocated(a, c, Compose(m, n))
  {
    var o := Compose(m, n);
    forall x ensures x in o.to <==> x in a {
      ComposedTo(a, b, c, m, n, x);
    }
    forall p ensures p in o.from <==> p in c {
      ComposedFrom(a, b, c, m, n, p);
    }
    forall x | x in a ensures o.to[x] in c && c[o.to[x]] == a[x] && o.from[o.to[x]] == x {
      ComposedTo(a, b, c, m, n, x);
      ComposedFrom(a, b, c, m, n, o.to[x]);
    }
    forall p | p in c ensures o.from[p] in a && o.to[o.from[p]] == p {
      ComposedFrom(a, b, c, m, n, p);
      ComposedTo(a, b, c, m, n, o.from[p]);
    }
  }

  lemma RenamedAt(fs: Fs, src: Path, dst: Path, p: Path)
    requires Disjoint(src, dst)
    ensures dst <= p ==> (p in Renamed(fs, src, dst) <==> src + p[|dst|..] in fs)
    ensures dst <= p && p in Renamed(fs, src, dst) ==> Renamed(fs, src, dst)[p] == fs[src + p[|dst|..]]
    ensures !(dst <= p) ==> (p in Renamed(fs, src, dst) <==> p in fs && !(src <= p))
    ensures !(dst <= p) && p in Renamed(fs, src, dst) ==> Renamed(fs, src, dst)[p] == fs[p]
  {
    GraftAt(Prune(fs, src), dst, Subtree(fs, src), p);
    if dst <= p { SubtreeAt(fs, src, p[|dst|..]); }
  }

  /** A rename onto a free name moves nodes and does nothing else. */
  lemma RenameRelocates(fs: Fs, src: Path, dst: Path)
    requires WellFormed(fs) && Disjoint(src, dst) && dst !in fs
    ensures Relocated(fs, Renamed(fs, src, dst), RenameShift(fs, src, dst))
  {
    var g, m := Renamed(fs, src, dst), RenameShift(fs, src, dst);
    forall x | x in fs ensures m.to[x] in g && g[m.to[x]] == fs[x] && m.from[m.to[x]] == x {
      RenamedAt(fs, src, dst, m.to[x]);
      if src <= x {
        UnderIsOffset(src, x);
        assert dst <= m.to[x] && m.to[x][|dst|..] == x[|src|..];
      } else if dst <= x {
        PrefixClosed(fs, dst, x);
      }
    }
    forall p | p in g ensures m.from[p] in fs && m.to[m.from[p]] == p {
      RenamedAt(fs, src, dst, p);
      if dst <= p {
        UnderIsOffset(dst, p);
        assert src <= m.from[p] && m.from[p][|src|..] == p[|dst|..];
      }
    }
  }

  ghost function Pick(fs: Fs): (p: Path)
    requires fs != map[]
    ensures p in fs
  {
    var p :| p in fs; p
  }

  /** All nodes of the tree, with their multiplicities. */
  ghost function Contents(fs: Fs): multiset<Node> {
    if fs == map[] then multiset{} else
      multiset{fs[Pick(fs)]} + Contents(fs - {Pick(fs)})
  }

  lemma {:induction false} ContentsWithout(fs: Fs, p: Path)
    requires p in fs
    ensures Contents(fs) == multiset{fs[p]} + Contents(fs - {p})
    decreases |fs|
  {
    var q := Pick(fs);
    if p != q {
      var f, g, h := fs - {q}, fs - {p}, fs - {p} - {q};
      assert f - {p} == h;
      ContentsWithout(f, p);
      ContentsWithout(g, q);
      assert Contents(fs) == multiset{fs[q]} + (multiset{fs[p]} + Contents(h));
    }
  }

  /** Relocation conserves what the tree holds, copy for copy. */
  lemma RelocatedWithout(a: Fs, b: Fs, m: Shift, p: Path)
    requires Relocated(a, b, m) && p in b
    ensures var x := m.from[p]; Relocated(a - {x}, b - {p}, Shift(m.to - {x}, m.from - {p}))
    ensures m.from[p] in a && a[m.from[p]] == b[p]
  {
  }

  lemma {:induction false} RelocatedContents(a: Fs, b: Fs, m: Shift)
    requires Relocated(a, b, m)
    ensures Contents(a) == Contents(b)
    decreases |b|
  {
    if b == map[] {
      assert a == map[];
    } else {
      var p := Pick(b);
      var x := m.from[p];
      ContentsWithout(a, x);
      RelocatedWithout(a, b, m, p);
      RelocatedContents(a - {x}, b - {p}, Shift(m.to - {x}, m.from - {p}));
    }
  }

  // ---- The request --------------------------------------------------------------

  datatype MoveResult =
    | Moved | NoPaths | BadPath(why: Result) | NotADirectory
    | SiteRoot | IntoItself | Conflict(name: string) | RenameFailed(name: string)

  predicate PlainTree(fs: Fs) {
    forall p :: p in fs ==> fs[p].Dir? || fs[p].File?
  }

  /** EvalSymlinks where there are no symlinks: a path resolves to itself if it
      exists; a file in the way of it is an error of another kind. */
  function Evaluate(fs: Fs, path: string): Resolution {
    var cs := Parts(path);
    if cs in fs then Resolved(path)
    else if exists k :: 0 <= k < |cs| && cs[..k] in fs && fs[cs[..k]].File? then Failed
    else NotExist
  }

  function Evaluator(fs: Fs): string -> Resolution {
    path => Evaluate(fs, path)
  }

  /** filepath.Base of a clean path other than "/". */
  function BaseOf(path: string): string {
    path[LastIndexByte(path, '/') + 1..]
  }

  predicate Onto(src: string, dest: string) {
    src == dest || src + "/" <= dest + "/"
  }

  lemma OntoIff(a: seq<string>, b: seq<string>)
    requires Normal(true, a) && Normal(true, b) && a != []
    ensures Onto(Render(true, a), Render(true, b)) <==> a <= b
  {
    var x, y := Render(true, a), Render(true, b);
    PrefixIsComponentPrefix(a, b);
    RenderInjective(a, b);
    if x + "/" <= y + "/" && |x| < |y| { assert x + "/" <= y; }
    if x + "/" <= y + "/" && |x| == |y| { assert x == (x + "/")[..|x|] == (y + "/")[..|x|] == y; }
    if x + "/" <= y { assert x + "/" <= y + "/"; }
  }

  lemma BaseOfRender(cs: seq<string>)
    requires Normal(true, cs) && cs != []
    ensures BaseOf(Render(true, cs)) == cs[|cs| - 1] && IsName(cs[|cs| - 1])
  {
    var init, last := cs[..|cs| - 1], cs[|cs| - 1];
    assert cs == init + [last];
    HeadAndLast(init, last);
    LastSlashOf(Head(init), last);
    assert (Head(init) + last)[|Head(init)|..] == last;
  }

  lemma JoinName(dc: seq<string>, base: string)
    requires Normal(true, dc) && IsName(base)
    ensures Normal(true, dc + [base]) && Join(Render(true, dc), base) == Render(true, dc + [base])
  {
    var d := Render(true, dc);
    PartsOfRender(true, dc);
    RenderNonEmpty(true, dc);
    SplitName(base, '/');
    assert base[0] in base && !IsRooted(base);
    assert [base][1..] == [] && [] + [base] == [base];
    assert Push(false, [], base) == [base];
    assert Parts(base) == Reduce(false, [], [base]) == Reduce(false, [base], []) == [base];
    JoinNames(d, base);
  }

  /** A relocation, given by m, that keeps the tree well-formed and changes nothing
      outside the site: what every exit of the request guarantees. */
  ghost predicate Conserved(before: Fs, now: Fs, site: Path, m: Shift) {
    && WellFormed(now) && PlainTree(now) && Prune(now, site) == Prune(before, site)
    && Relocated(before, now, m)
  }

  lemma ConservedSelf(fs: Fs, site: Path)
    requires WellFormed(fs) && PlainTree(fs)
    ensures Conserved(fs, fs, site, Unmoved(fs))
  {
    RelocatedSelf(fs);
  }

  lemma ConservedContents(before: Fs, now: Fs, site: Path, m: Shift)
    requires Conserved(before, now, site, m)
    ensures Contents(now) == Contents(before)
  {
    RelocatedContents(before, now, m);
  }

  lemma RenamedPlain(fs: Fs, site: Path, src: Path, dst: Path)
    requires PlainTree(fs) && Disjoint(src, dst) && site <= src && site <= dst
    ensures PlainTree(Renamed(fs, src, dst)) && Prune(Renamed(fs, src, dst), site) == Prune(fs, site)
  {
    var g := Renamed(fs, src, dst);
    forall p
      ensures p in g ==> g[p].Dir? || g[p].File?
      ensures !(site <= p) ==> (p in g <==> p in fs) && (p in g ==> g[p] == fs[p])
    {
      RenamedAt(fs, src, dst, p);
    }
  }

  lemma ConservedRename(before: Fs, now: Fs, site: Path, m: Shift, src: Path, dst: Path)
    requires Conserved(before, now, site, m) && Disjoint(src, dst) && dst !in now && site <= src && site <= dst
    requires WellFormed(Renamed(now, src, dst))
    ensures Conserved(before, Renamed(now, src, dst), site, Compose(m, RenameShift(now, src, dst)))
  {
    var g := Renamed(now, src, dst);
    var n := RenameShift(now, src, dst);
    RenameRelocates(now, src, dst);
    RelocatedTrans(before, now, g, m, n);
    RenamedPlain(now, site, src, dst);
  }

  /** The destination and its entries survive every move into it. */
  lemma DestinationStays(fs: Fs, src: Path, dest: Path, n: string)
    requires Disjoint(src, dest + [n]) && !(src <= dest) && dest in fs
    ensures dest in Renamed(fs, src, dest + [n]) && Renamed(fs, src, dest + [n])[dest] == fs[dest]
  {
    RenamedAt(fs, src, dest + [n], dest);
  }

  lemma EntryStays(fs: Fs, src: Path, dest: Path, n: string, m: string)
    requires Disjoint(src, dest + [n]) && !(src <= dest) && dest + [n] !in fs
    requires dest + [m] in fs && dest + [m] != src
    ensures dest + [m] in Renamed(fs, src, dest + [n])
  {
    var e := dest + [m];
    RenamedAt(fs, src, dest + [n], e);
    assert dest + [n] <= e ==> dest + [n] == e;
    assert src <= e && |src| <= |dest| ==> src <= dest;
    assert src <= e && |src| > |dest| ==> src == e;
  }

  lemma MovedArrives(fs: Fs, src: Path, dest: Path, n: string)
    requires Disjoint(src, dest + [n]) && src in fs
    ensures dest + [n] in Renamed(fs, src, dest + [n])
  {
    RenamedAt(fs, src, dest + [n], dest + [n]);
    assert src + [] == src;
  }

  /** Everything the strings of one entry say about its components. */
  lemma EntryPaths(dc: seq<string>, sc: seq<string>)
    requires Normal(true, dc) && Normal(true, sc) && sc != []
    ensures var dest, src, base := Render(true, dc), Render(true, sc), sc[|sc| - 1];
            && BaseOf(src) == base && Normal(true, dc + [base]) && sc == Parent(sc) + [BaseOf(src)]
            && Join(dest, base) == Render(true, dc + [base])
            && (Onto(src, dest) <==> sc <= dc)
            && (Join(dest, base) == src <==> dc + [base] == sc)
  {
    assert sc == Parent(sc) + [sc[|sc| - 1]];
    BaseOfRender(sc);
    TargetIsSourceIff(dc, sc, sc[|sc| - 1]);
    OntoIff(sc, dc);
  }

  lemma TargetIsSourceIff(dc: seq<string>, sc: seq<string>, base: string)
    requires Normal(true, dc) && Normal(true, sc) && IsName(base)
    ensures Normal(true, dc + [base]) && Join(Render(true, dc), base) == Render(true, dc + [base])
    ensures Join(Render(true, dc), base) == Render(true, sc) <==> dc + [base] == sc
  {
    JoinName(dc, base);
    RenderInjective(dc + [base], sc);
  }

  lemma BelowSite(site: Path, dc: Path, base: string)
    requires site <= dc
    ensures site <= dc + [base]
  {
  }

  lemma TargetIsApart(fs: Fs, sc: Path, dc: Path, base: string)
    requires WellFormed(fs) && sc in fs && dc + [base] !in fs && !(sc <= dc)
    ensures Disjoint(sc, dc + [base])
  {
    assert sc <= dc + [base] && |sc| <= |dc| ==> sc <= dc;
    assert sc <= dc + [base] && |sc| > |dc| ==> sc == dc + [base];
    if dc + [base] <= sc { PrefixClosed(fs, dc + [base], sc); }
  }

  /** What has arrived in the destination so far, and that nothing left it. */
  ghost predicate Arrived(before: Fs, now: Fs, dc: Path, moved: seq<string>) {
    && dc in before && before[dc].Dir? && dc in now && now[dc] == before[dc]
    && (forall n :: dc + [n] in before ==> dc + [n] in now)
    && (forall b :: b in moved ==> dc + [b] in now && dc + [b] !in before)
    && (moved == [] ==> now == before)
  }

  lemma ArrivedMore(before: Fs, now: Fs, sc: Path, dc: Path, base: string, moved: seq<string>)
    requires Arrived(before, now, dc, moved) && sc in now && dc + [base] !in now && !(sc <= dc)
    requires sc != [] && sc == Parent(sc) + [base] && Disjoint(sc, dc + [base])
    ensures Arrived(before, Renamed(now, sc, dc + [base]), dc, moved + [base])
  {
    var g := Renamed(now, sc, dc + [base]);
    DestinationStays(now, sc, dc, base);
    MovedArrives(now, sc, dc, base);
    forall n | dc + [n] in now ensures dc + [n] in g {
      assert (dc + [n])[|dc + [n]| - 1] == n && sc[|sc| - 1] == base;
      EntryStays(now, sc, dc, base, n);
    }
  }

  // ---- What the checks decide ---------------------------------------------------

  predicate BlockedByFile(fs: Fs, cs: Path) {
    cs !in fs && exists k :: 0 <= k < |cs| && cs[..k] in fs && fs[cs[..k]].File?
  }

  /** safePath on a tree of files and directories, in terms of components. */
  function PlainVerdict(fs: Fs, root: string, rel: string): Result {
    var sc := Parts(root) + Parts(Cleaned(rel));
    if root == "" then NotConfigured
    else if LooksOutside(Cleaned(rel)) then InvalidPath
    else if !PassesText(root, rel) then Traversal
    else if Parts(root) !in fs then RootNotAccessible
    else if BlockedByFile(fs, sc) then InvalidPath
    else Allowed(Render(true, sc))
  }

  lemma SafePathOnPlainTree(fs: Fs, root: string, rel: string, r: Result, stop: nat)
    requires WellFormed(fs) && (root == "" || IsRooted(root))
    requires Verdict(Evaluator(fs), root, rel, r, stop)
    ensures r == PlainVerdict(fs, root, rel)
  {
    if PassesText(root, rel) {
      var rc, fc := Parts(root), Parts(root) + Parts(Cleaned(rel));
      PartsNormal(root);
      PartsOfRender(true, rc);
      assert Clean(root) == Render(true, rc) && fc[..|rc|] == rc;
      if rc in fs { WalkOnPlainTree(fs, rc, fc, r, stop); }
    }
  }

  lemma NormalPrefix(cs: seq<string>, k: nat)
    requires Normal(true, cs) && k <= |cs|
    ensures Normal(true, cs[..k]) && Parts(Render(true, cs[..k])) == cs[..k]
  {
    PartsOfRender(true, cs[..k]);
  }

  lemma WalkOnPlainTree(fs: Fs, rc: seq<string>, fc: seq<string>, r: Result, stop: nat)
    requires WellFormed(fs) && Normal(true, fc) && rc <= fc && rc in fs && (rc != [] || fc == [])
    requires Judged(Evaluator(fs), Render(true, rc), rc, fc, r, stop)
    ensures r == if BlockedByFile(fs, fc) then InvalidPath else Allowed(Render(true, fc))
  {
    assert fc[..|rc|] == rc && fc[..|fc|] == fc;
    NormalPrefix(fc, |rc|);
    NormalPrefix(fc, |fc|);
    NormalPrefix(fc, stop);
    if stop < |fc| {
      assert Evaluator(fs)(Probe(fc, |fc|)).NotExist?;
      NotBlockedAbove(fs, fc, stop);
    }
    InsideIff(rc, fc[..stop]);
    assert rc <= fc[..stop];
  }

  /** If the path is absent and no ancestor of it is a file, none is in the way of an
      ancestor either. */
  lemma NotBlockedAbove(fs: Fs, fc: Path, k: nat)
    requires k < |fc| && fc !in fs && !BlockedByFile(fs, fc)
    ensures !BlockedByFile(fs, fc[..k])
  {
    forall m | 0 <= m < k ensures !(fc[..k][..m] in fs && fs[fc[..k][..m]].File?) {
      assert fc[..k][..m] == fc[..m];
    }
  }

  /** What is to be done about one entry. */
  datatype Plan = Stop(result: MoveResult) | InPlace | Go(src: Path, dst: Path, base: string)

  /** The decision in terms of components, for a destination with components dc. */
  function PlanFor(fs: Fs, root: string, rel: string, dc: Path): Plan {
    var verdict, sc := PlainVerdict(fs, root, rel), Parts(root) + Parts(Cleaned(rel));
    if !verdict.Allowed? then Stop(BadPath(verdict)) else CheckedPlan(fs, Parts(root), sc, dc)
  }

  function CheckedPlan(fs: Fs, rc: Path, sc: Path, dc: Path): Plan {
    if sc == rc || sc == [] then Stop(SiteRoot)
    else if sc <= dc then Stop(IntoItself)
    else if Parent(sc) == dc then InPlace
    else if dc + [sc[|sc| - 1]] in fs then Stop(Conflict(sc[|sc| - 1]))
    else Go(sc, dc + [sc[|sc| - 1]], sc[|sc| - 1])
  }

  /** When each answer to an allowed entry is given: s is the entry, d the destination, name
      the entry's last component. */
  lemma PlanIff(fs: Fs, rc: Path, sc: Path, dc: Path)
    requires rc <= sc
    ensures var plan := CheckedPlan(fs, rc, sc, dc);
            && (plan == Stop(SiteRoot) <==> sc == rc)
            && (plan == Stop(IntoItself) <==> rc != sc && sc <= dc)
            && (plan == InPlace <==> rc != sc && sc == dc + [sc[|sc| - 1]])
            && (rc != sc ==>
                  var name := sc[|sc| - 1];
                  && (plan == Stop(Conflict(name)) <==> !(sc <= dc) && sc != dc + [name] && dc + [name] in fs)
                  && (plan == Go(sc, dc + [name], name) <==> !(sc <= dc) && dc + [name] !in fs && sc != dc + [name]))
  {
    if sc != [] {
      assert sc == Parent(sc) + [sc[|sc| - 1]];
      assert Parent(sc) == dc <==> sc == dc + [sc[|sc| - 1]];
      if sc <= dc { assert |sc| <= |dc|; }
    }
  }

  /** An entry named as x/c/../y is planned as x/y is. */
  lemma NameUpSamePlan(fs: Fs, root: string, x: string, c: string, y: string, dc: Path)
    requires IsName(c)
    ensures PlanFor(fs, root, x + "/" + c + "/../" + y, dc) == PlanFor(fs, root, x + "/" + y, dc)
    ensures PlainVerdict(fs, root, x + "/" + c + "/../" + y) == PlainVerdict(fs, root, x + "/" + y)
  {
    NameUpIsIgnored(x, c, y);
  }

  /** A move that is to be made goes onto a free name, apart from its source, and does not
      take the destination along. */
  lemma GoIsSafe(fs: Fs, root: string, rel: string, dc: Path)
    requires WellFormed(fs) && PlanFor(fs, root, rel, dc).Go?
    ensures var p := PlanFor(fs, root, rel, dc);
            && p.src == Parts(root) + Parts(Cleaned(rel)) && p.src != [] && p.src == Parent(p.src) + [p.base]
               && p.dst == dc + [p.base]
            && p.dst !in fs && !(p.src <= dc) && Parts(root) <= p.src && (p.src in fs ==> Disjoint(p.src, p.dst))
  {
    var p := PlanFor(fs, root, rel, dc);
    if p.src in fs { TargetIsApart(fs, p.src, dc, p.base); }
  }

  /** The checks that follow safePath. */
  method CheckEntry(nodes: Fs, root: string, srcFull: string, destFull: string, ghost sc: Path, ghost dc: Path)
    returns (plan: Plan)
    requires WellFormed(nodes) && IsRooted(root) && Normal(true, dc) && destFull == Render(true, dc)
    requires Normal(true, sc) && srcFull == Render(true, sc) && Parts(root) <= sc
    ensures plan == CheckedPlan(nodes, Parts(root), sc, dc)
  {
    PartsNormal(root);
    RenderInjective(sc, Parts(root));
    if srcFull == Clean(root) { return Stop(SiteRoot); }
    EntryPaths(dc, sc);
    var base := BaseOf(srcFull);
    var dst := Join(destFull, base);
    if Onto(srcFull, destFull) { return Stop(IntoItself); }
    assert dc + [base] == sc <==> Parent(sc) == dc;
    if dst == srcFull { return InPlace; }  // already there
    PartsOfRender(true, dc + [base]);
    PartsOfRender(true, sc);
    if Parts(dst) in nodes { return Stop(Conflict(base)); }
    return Go(Parts(srcFull), Parts(dst), base);
  }

  /** All checks on one entry, on the disk as it is now. */
  method PlanEntry(nodes: Fs, root: string, rel: string, destFull: string, ghost dc: Path) returns (plan: Plan)
    requires WellFormed(nodes) && IsRooted(root) && Normal(true, dc) && destFull == Render(true, dc)
    ensures plan == PlanFor(nodes, root, rel, dc)
    ensures plan.InPlace? ==> var sc := Parts(root) + Parts(Cleaned(rel)); sc != [] && Parent(sc) == dc
  {
    ghost var stop;
    var src: Result;
    src, stop := SafePath.SafePath(Evaluator(nodes), root, rel);
    SafePathOnPlainTree(nodes, root, rel, src, stop);
    if !src.Allowed? { return Stop(BadPath(src)); }
    plan := CheckEntry(nodes, root, src.full, destFull, Parts(root) + Parts(Cleaned(rel)), dc);
  }

  // ---- The loop as a history of legal renames ------------------------------------

  /** A rename of src into the destination directory, under its own name. */
  datatype Move = Move(src: Path, base: string)

  ghost function Replay(fs: Fs, dc: Path, log: seq<Move>): Fs {
    if log == [] then fs else
      var m := log[|log| - 1];
      Renamed(Replay(fs, dc, log[..|log| - 1]), m.src, dc + [m.base])
  }

  ghost predicate LegalMove(now: Fs, site: Path, dc: Path, m: Move) {
    && m.src in now && m.src != [] && m.src == Parent(m.src) + [m.base] && site <= m.src
    && dc + [m.base] !in now && !(m.src <= dc) && Disjoint(m.src, dc + [m.base])
    && WellFormed(Renamed(now, m.src, dc + [m.base]))
  }

  ghost predicate Legal(fs: Fs, site: Path, dc: Path, log: seq<Move>) {
    log == [] ||
    (Legal(fs, site, dc, log[..|log| - 1]) && LegalMove(Replay(fs, dc, log[..|log| - 1]), site, dc, log[|log| - 1]))
  }

  ghost function Names(log: seq<Move>): seq<string> {
    if log == [] then [] else Names(log[..|log| - 1]) + [log[|log| - 1].base]
  }

  ghost function Shifts(fs: Fs, dc: Path, log: seq<Move>): Shift {
    if log == [] then Unmoved(fs) else
      var init, m := log[..|log| - 1], log[|log| - 1];
      Compose(Shifts(fs, dc, init), RenameShift(Replay(fs, dc, init), m.src, dc + [m.base]))
  }

  /** A run of legal renames relocates the tree. */
  lemma {:induction false} ReplayConserves(fs: Fs, site: Path, dc: Path, log: seq<Move>)
    requires WellFormed(fs) && PlainTree(fs) && site <= dc && Legal(fs, site, dc, log)
    ensures Conserved(fs, Replay(fs, dc, log), site, Shifts(fs, dc, log))
  {
    if log == [] {
      ConservedSelf(fs, site);
    } else {
      var init, m := log[..|log| - 1], log[|log| - 1];
      ReplayConserves(fs, site, dc, init);
      BelowSite(site, dc, m.base);
      ConservedRename(fs, Replay(fs, dc, init), site, Shifts(fs, dc, init), m.src, dc + [m.base]);
    }
  }

  /** Every moved name has arrived, and what the destination held is still there. */
  lemma {:induction false} ReplayArrives(fs: Fs, site: Path, dc: Path, log: seq<Move>)
    requires dc in fs && fs[dc].Dir? && Legal(fs, site, dc, log)
    ensures Arrived(fs, Replay(fs, dc, log), dc, Names(log))
  {
    if log != [] {
      var init, m := log[..|log| - 1], log[|log| - 1];
      ReplayArrives(fs, site, dc, init);
      ArrivedMore(fs, Replay(fs, dc, init), m.src, dc, m.base, Names(init));
    }
  }

  lemma LegalAppend(fs: Fs, site: Path, dc: Path, log: seq<Move>, m: Move)
    requires Legal(fs, site, dc, log) && LegalMove(Replay(fs, dc, log), site, dc, m)
    ensures Legal(fs, site, dc, log + [m]) && Names(log + [m]) == Names(log) + [m.base]
    ensures Replay(fs, dc, log + [m]) == Renamed(Replay(fs, dc, log), m.src, dc + [m.base])
  {
    assert (log + [m])[..|log + [m]| - 1] == log;
  }

  /** The renames that the given paths ask for, in order: those already in place ask for none. */
  ghost function Asked(fs: Fs, root: string, rels: seq<string>, dc: Path): seq<Move> {
    if rels == [] then []
    else
      var before := Asked(fs, root, rels[..|rels| - 1], dc);
      var plan := PlanFor(Replay(fs, dc, before), root, rels[|rels| - 1], dc);
      if plan.Go? then before + [Move(plan.src, plan.base)] else before
  }

  /** None of the paths is refused when its turn comes. */
  ghost predicate NoneRefused(fs: Fs, root: string, rels: seq<string>, dc: Path) {
    rels == [] ||
    var before := rels[..|rels| - 1];
    NoneRefused(fs, root, before, dc)
      && !PlanFor(Replay(fs, dc, Asked(fs, root, before, dc)), root, rels[|rels| - 1], dc).Stop?
  }

  /** How the loop ends, where works[i] says whether the system lets the i-th rename
      through: all paths are handled, or the first that is not gives the answer, as its
      checks or its rename turn out on the disk as it is by then. */
  ghost predicate Outcome(fs: Fs, now: Fs, root: string, rels: seq<string>, dc: Path, works: seq<bool>, r: MoveResult,
                          log: seq<Move>, handled: nat)
    requires |works| == |rels|
  {
    && handled <= |rels| && log == Asked(fs, root, rels[..handled], dc) && NoneRefused(fs, root, rels[..handled], dc)
    && (r.Moved? <==> handled == |rels|)
    && (handled < |rels| ==>
          var plan := PlanFor(now, root, rels[handled], dc);
          plan == Stop(r)
          || (plan.Go? && r == RenameFailed(plan.base) && !(works[handled] && CanRename(now, plan.src, plan.dst))))
  }

  /** One more path, seen from the start of the loop. */
  lemma AskedOne(fs: Fs, root: string, rels: seq<string>, dc: Path, i: nat)
    requires i < |rels|
    ensures var before := Asked(fs, root, rels[..i], dc);
            var plan := PlanFor(Replay(fs, dc, before), root, rels[i], dc);
            && Asked(fs, root, rels[..i + 1], dc) == (if plan.Go? then before + [Move(plan.src, plan.base)] else before)
            && (NoneRefused(fs, root, rels[..i + 1], dc) <==> NoneRefused(fs, root, rels[..i], dc) && !plan.Stop?)
  {
    var more := rels[..i + 1];
    assert more[..|more| - 1] == rels[..i];
  }

  /** The entry sc has come into the destination dc, under a name that was free, and is gone
      from where it was; or it lies there anyway. */
  ghost predicate Brought(before: Fs, now: Fs, sc: Path, dc: Path) {
    sc != [] && (sc == dc + [sc[|sc| - 1]] ||
                 (sc !in now && dc + [sc[|sc| - 1]] in now && dc + [sc[|sc| - 1]] !in before))
  }

  /** So has every entry of a list. */
  ghost predicate AllBrought(before: Fs, now: Fs, root: string, rels: seq<string>, dc: Path) {
    forall i :: 0 <= i < |rels| ==> Brought(before, now, Parts(root) + Parts(Cleaned(rels[i])), dc)
  }

  /** The entry of the destination that a path below it goes through is there. */
  ghost predicate WayThere(now: Fs, sc: Path, dc: Path) {
    dc <= sc && |sc| > |dc| + 1 ==> dc + [sc[|dc|]] in now
  }

  ghost predicate AllWays(now: Fs, root: string, rels: seq<string>, dc: Path) {
    forall i :: 0 <= i < |rels| ==> WayThere(now, Parts(root) + Parts(Cleaned(rels[i])), dc)
  }

  ghost predicate EntriesStay(a: Fs, b: Fs, dc: Path) {
    forall n :: dc + [n] in a ==> dc + [n] in b
  }

  /** A legal move leaves all entries of the destination there. */
  lemma MoveKeepsEntries(fs: Fs, site: Path, dc: Path, m: Move)
    requires LegalMove(fs, site, dc, m) && dc in fs
    ensures EntriesStay(fs, Renamed(fs, m.src, dc + [m.base]), dc)
  {
    forall n | dc + [n] in fs ensures dc + [n] in Renamed(fs, m.src, dc + [m.base]) {
      assert (dc + [n])[|dc + [n]| - 1] == n && m.src[|m.src| - 1] == m.base;
      EntryStays(fs, m.src, dc, m.base, n);
    }
  }

  /** What has been brought is not brought away by a later move. */
  lemma BroughtStays(before: Fs, now: Fs, site: Path, sc: Path, dc: Path, m: Move)
    requires Brought(before, now, sc, dc) && WayThere(now, sc, dc) && LegalMove(now, site, dc, m) && dc in now
    ensures var g := Renamed(now, m.src, dc + [m.base]); Brought(before, g, sc, dc) && WayThere(g, sc, dc)
  {
    var dst := dc + [m.base];
    MoveKeepsEntries(now, site, dc, m);
    RenamedAt(now, m.src, dst, sc);
    assert dst <= sc ==> sc[|dc|] == m.base;
  }

  /** The move of an entry brings it. */
  lemma MoveBrings(before: Fs, now: Fs, site: Path, dc: Path, m: Move)
    requires LegalMove(now, site, dc, m) && dc in now && WellFormed(now) && EntriesStay(before, now, dc)
    ensures var g := Renamed(now, m.src, dc + [m.base]); Brought(before, g, m.src, dc) && WayThere(g, m.src, dc)
  {
    var dst := dc + [m.base];
    MovedArrives(now, m.src, dc, m.base);
    RenamedAt(now, m.src, dst, m.src);
    MoveKeepsEntries(now, site, dc, m);
    if dc <= m.src && |m.src| > |dc| + 1 {
      assert dc + [m.src[|dc|]] <= m.src;
      PrefixClosed(now, dc + [m.src[|dc|]], m.src);
    }
  }

  /** Nor is any of them. */
  lemma AllStay(before: Fs, now: Fs, site: Path, root: string, rels: seq<string>, dc: Path, m: Move)
    requires AllBrought(before, now, root, rels, dc) && AllWays(now, root, rels, dc)
    requires LegalMove(now, site, dc, m) && dc in now
    ensures var g := Renamed(now, m.src, dc + [m.base]);
            AllBrought(before, g, root, rels, dc) && AllWays(g, root, rels, dc)
  {
    forall j | 0 <= j < |rels|
      ensures var g, sc := Renamed(now, m.src, dc + [m.base]), Parts(root) + Parts(Cleaned(rels[j]));
              Brought(before, g, sc, dc) && WayThere(g, sc, dc)
    {
      BroughtStays(before, now, site, Parts(root) + Parts(Cleaned(rels[j])), dc, m);
    }
  }

  lemma OneMoreBrought(before: Fs, now: Fs, root: string, rels: seq<string>, dc: Path, i: nat, sc: Path)
    requires i < |rels| && AllBrought(before, now, root, rels[..i], dc) && AllWays(now, root, rels[..i], dc)
    requires sc == Parts(root) + Parts(Cleaned(rels[i])) && Brought(before, now, sc, dc) && WayThere(now, sc, dc)
    ensures AllBrought(before, now, root, rels[..i + 1], dc) && AllWays(now, root, rels[..i + 1], dc)
  {
    assert rels[..i + 1] == rels[..i] + [rels[i]];
  }

  /** One more entry handled: the move has brought it, or it lay there. */
  lemma HandledOne(before: Fs, now: Fs, now': Fs, root: string, rels: seq<string>, dc: Path, i: nat, base: string,
                   moved: bool)
    requires i < |rels| && WellFormed(now) && dc in now && EntriesStay(before, now, dc)
    requires AllBrought(before, now, root, rels[..i], dc) && AllWays(now, root, rels[..i], dc)
    requires var sc := Parts(root) + Parts(Cleaned(rels[i]));
             if moved then LegalMove(now, Parts(root), dc, Move(sc, base)) && now' == Renamed(now, sc, dc + [base])
             else now' == now && sc != [] && Parent(sc) == dc
    ensures AllBrought(before, now', root, rels[..i + 1], dc) && AllWays(now', root, rels[..i + 1], dc)
  {
    var sc := Parts(root) + Parts(Cleaned(rels[i]));
    if moved {
      AllStay(before, now, Parts(root), root, rels[..i], dc, Move(sc, base));
      MoveBrings(before, now, Parts(root), dc, Move(sc, base));
    } else {
      assert sc == Parent(sc) + [sc[|sc| - 1]];
    }
    OneMoreBrought(before, now', root, rels, dc, i, sc);
  }

  /** One rename, after its checks; it may still fail, for want of the source or for
      reasons of the system. */
  method MoveOne(disk: Disk, plan: Plan, works: bool, ghost site: Path, ghost dc: Path) returns (ok: bool)
    requires disk.Valid() && plan.Go? && plan.dst == dc + [plan.base] && plan.dst !in disk.nodes
    requires plan.src != [] && plan.src == Parent(plan.src) + [plan.base] && site <= plan.src && !(plan.src <= dc)
    requires plan.src in disk.nodes ==> Disjoint(plan.src, plan.dst)
    requires dc in disk.nodes && disk.nodes[dc].Dir?
    modifies disk
    ensures disk.Valid()
    ensures ok == (works && CanRename(old(disk.nodes), plan.src, plan.dst))
    ensures !ok ==> disk.nodes == old(disk.nodes)
    ensures ok ==> LegalMove(old(disk.nodes), site, dc, Move(plan.src, plan.base))
    ensures ok ==> disk.nodes == Renamed(old(disk.nodes), plan.src, dc + [plan.base])
  {
    assert Parent(plan.dst) == dc;
    ok := disk.Rename(plan.src, plan.dst, works);
  }

  /** The loop: moves each path in turn and stops at the first that cannot be moved. */
  method MoveAll(disk: Disk, root: string, rels: seq<string>, destFull: string, works: seq<bool>, ghost dc: Path)
    returns (r: MoveResult, moved: seq<string>, ghost log: seq<Move>, ghost handled: nat)
    requires disk.Valid() && PlainTree(disk.nodes) && IsRooted(root)
    requires Parts(root) <= dc && Normal(true, dc) && destFull == Render(true, dc)
    requires dc in disk.nodes && disk.nodes[dc].Dir? && |works| == |rels|
    modifies disk
    ensures disk.Valid() && Legal(old(disk.nodes), Parts(root), dc, log)
            && disk.nodes == Replay(old(disk.nodes), dc, log)
    ensures moved == Names(log) && Outcome(old(disk.nodes), disk.nodes, root, rels, dc, works, r, log, handled)
    ensures AllBrought(old(disk.nodes), disk.nodes, root, rels[..handled], dc)
  {
    ghost var f0 := disk.nodes;
    moved, log, handled := [], [], 0;
    for i := 0 to |rels|
      invariant disk.Valid() && Legal(f0, Parts(root), dc, log) && disk.nodes == Replay(f0, dc, log)
                && moved == Names(log)
      invariant handled == i && log == Asked(f0, root, rels[..i], dc) && NoneRefused(f0, root, rels[..i], dc)
      invariant AllBrought(f0, disk.nodes, root, rels[..i], dc) && AllWays(disk.nodes, root, rels[..i], dc)
    {
      ghost var now := disk.nodes;
      ReplayArrives(f0, Parts(root), dc, log);
      AskedOne(f0, root, rels, dc, i);
      var plan := PlanEntry(disk.nodes, root, rels[i], destFull, dc);
      if plan.Stop? {
        StopsWithoutMoving(disk.nodes, root, rels[i], dc);
        return plan.result, moved, log, handled;
      }
      if plan.Go? {
        GoIsSafe(disk.nodes, root, rels[i], dc);
        var ok := MoveOne(disk, plan, works[i], Parts(root), dc);
        if !ok { return RenameFailed(plan.base), moved, log, handled; }
        LegalAppend(f0, Parts(root), dc, log, Move(plan.src, plan.base));
        moved, log := moved + [plan.base], log + [Move(plan.src, plan.base)];
      }
      HandledOne(f0, now, disk.nodes, root, rels, dc, i, if plan.Go? then plan.base else "", plan.Go?);
      handled := handled + 1;
    }
    return Moved, moved, log, handled;
  }

  lemma StopsWithoutMoving(fs: Fs, root: string, rel: string, dc: Path)
    requires PlanFor(fs, root, rel, dc).Stop?
    ensures !PlanFor(fs, root, rel, dc).result.Moved?
  {
  }

  /** The whole request. On every way out, `log` is the legal renames that were done:
      the tree holds the same nodes as before, one for one, is well-formed, and is
      untouched outside the site; the destination has kept its place and all it
      held, and what was moved is there under a name that was free. The renames are
      those the first `handled` paths asked for; success means that all were handled,
      and anything else is the answer to the first path that was not. */
  method MoveEntries(disk: Disk, root: string, rels: seq<string>, dest: string, works: seq<bool>)
    returns (r: MoveResult, moved: seq<string>, ghost log: seq<Move>, ghost handled: nat)
    requires disk.Valid() && PlainTree(disk.nodes) && (root == "" || IsRooted(root)) && |works| == |rels|
    modifies disk
    ensures disk.Valid() && moved == Names(log)
    ensures var dc := Parts(root) + Parts(Cleaned(dest));
            && disk.nodes == Replay(old(disk.nodes), dc, log)
            && Conserved(old(disk.nodes), disk.nodes, Parts(root), Shifts(old(disk.nodes), dc, log))
            && (moved != [] ==> Arrived(old(disk.nodes), disk.nodes, dc, moved))
    ensures Contents(disk.nodes) == Contents(old(disk.nodes))
    ensures var dc, verdict := Parts(root) + Parts(Cleaned(dest)), PlainVerdict(old(disk.nodes), root, dest);
            if |rels| == 0 then r.NoPaths? && log == []
            else if !verdict.Allowed? then r == BadPath(verdict) && log == []
            else if !(dc in old(disk.nodes) && old(disk.nodes)[dc].Dir?) then r.NotADirectory? && log == []
            else Outcome(old(disk.nodes), disk.nodes, root, rels, dc, works, r, log, handled)
    ensures handled <= |rels| && (r.Moved? ==> handled == |rels|)
    ensures AllBrought(old(disk.nodes), disk.nodes, root, rels[..handled], Parts(root) + Parts(Cleaned(dest)))
  {
    ghost var f0 := disk.nodes;
    ghost var dc := Parts(root) + Parts(Cleaned(dest));
    moved, log, handled := [], [], 0;
    ReplayConserves(f0, Parts(root), dc, log);
    if |rels| == 0 { return NoPaths, [], [], 0; }
    ghost var stop;
    var d: Result;
    d, stop := SafePath.SafePath(Evaluator(disk.nodes), root, dest);
    SafePathOnPlainTree(disk.nodes, root, dest, d, stop);
    if !d.Allowed? { return BadPath(d), [], [], 0; }
    PartsOfRender(true, dc);
    var target := Parts(d.full);
    if !(target in disk.nodes && disk.nodes[target].Dir?) { return NotADirectory, [], [], 0; }
    r, moved, log, handled := MoveAll(disk, root, rels, d.full, works, dc);
    ReplayConserves(f0, Parts(root), dc, log);
    ReplayArrives(f0, Parts(root), dc, log);
    ConservedContents(f0, disk.nodes, Parts(root), Shifts(f0, dc, log));
  }
}
