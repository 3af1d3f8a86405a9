/** When nothing goes wrong: a copy onto nothing completes, a copy over a compatible tree,
    and a copy over a single leftover link that can be opened. */
module CopyCompletes {
  import opened FileTree
  import opened CopyTree
  import opened DiskState
  import opened CopyRun
  import opened Restore
  import opened OpenedLink

  /** Calls left over change nothing. */
  lemma {:induction false} MoreSteps(fs: Fs, src: Path, dst: Path, e: Conditions, steps: nat, more: nat)
    requires CopyNode(fs, src, dst, e, steps).ok
    ensures var c := CopyNode(fs, src, dst, e, steps);
            CopyNode(fs, src, dst, e, steps + more) == c.(left := c.left + more)
    decreases steps, 0
  {
    if fs[src].Dir? {
      var at, mode := MkdirTarget(fs, dst), fs[src].mode;
      var made := Made(fs, dst, at, mode);
      ListMoreSteps(made, src, at.path, e.ls(ChildNames(made, src)), e, steps - 2, more);
    }
  }

  lemma {:induction false} ListMoreSteps(fs: Fs, src: Path, dst: Path, names: seq<string>, e: Conditions, steps: nat,
                                         more: nat)
    requires CopyList(fs, src, dst, names, e, steps).ok
    ensures var c := CopyList(fs, src, dst, names, e, steps);
            CopyList(fs, src, dst, names, e, steps + more) == c.(left := c.left + more)
    decreases steps, |names| + 1
  {
    if names != [] {
      var one := CopyNode(fs, src + [names[0]], dst + [names[0]], e, steps);
      MoreSteps(fs, src + [names[0]], dst + [names[0]], e, steps, more);
      ListMoreSteps(one.fs, src, dst, names[1..], e, one.left, more);
    }
  }

  /** One entry and then the others: enough calls for each are enough for both. */
  lemma ListSteps(fs: Fs, src: Path, dst: Path, names: seq<string>, e: Conditions, s1: nat, s2: nat)
    returns (steps: nat)
    requires names != [] && CopyNode(fs, src + [names[0]], dst + [names[0]], e, s1).ok
    requires CopyList(CopyNode(fs, src + [names[0]], dst + [names[0]], e, s1).fs, src, dst, names[1..], e, s2).ok
    ensures var c := CopyList(fs, src, dst, names, e, steps);
            && c.ok
            && c.fs == CopyList(CopyNode(fs, src + [names[0]], dst + [names[0]], e, s1).fs, src, dst,
                                names[1..], e, s2).fs
  {
    var one := CopyNode(fs, src + [names[0]], dst + [names[0]], e, s1);
    steps := s1 + s2;
    MoreSteps(fs, src + [names[0]], dst + [names[0]], e, s1, s2);
    ListMoreSteps(one.fs, src, dst, names[1..], e, s2, one.left);
  }

  /** Nothing but what lies at or below p, and perhaps q, has changed. */
  ghost predicate ChangedAt(a: Fs, b: Fs, p: Path, q: Path) {
    forall x :: !(p <= x) && x != q ==> (x in a <==> x in b) && (x in a ==> a[x] == b[x])
  }

  lemma SubtreeSame(a: Fs, b: Fs, p: Path, q: Path, x: Path)
    requires ChangedAt(a, b, p, q) && Disjoint(p, x) && !(x <= q)
    ensures Subtree(a, x) == Subtree(b, x) && Under(a, x) == Under(b, x) && ChildNames(a, x) == ChildNames(b, x)
  {
    forall y | y in a.Keys + b.Keys && x <= y ensures y in a && y in b && a[y] == b[y] {
      if p <= y { PrefixesCompare(p, x, y); }
    }
    forall r
      ensures r in Subtree(a, x) <==> r in Subtree(b, x)
      ensures r in Subtree(a, x) ==> r in Subtree(b, x) && Subtree(a, x)[r] == Subtree(b, x)[r]
    {
      SubtreeAt(a, x, r);
      SubtreeAt(b, x, r);
    }
  }

  lemma ConfinedChange(a: Fs, b: Fs, p: Path)
    requires Prune(a, p) == Prune(b, p)
    ensures ChangedAt(a, b, p, p)
  {
    forall x | !(p <= x) ensures (x in a <==> x in b) && (x in a ==> a[x] == b[x]) {
      PruneFrame(a, b, p, x);
    }
  }

  lemma ChildSmaller(fs: Fs, src: Path, n: string)
    requires WellFormed(fs) && n in ChildNames(fs, src)
    ensures src in fs && src + [n] in fs && Under(fs, src + [n]) < Under(fs, src)
  {
    ChildNamed(fs, src, n);
    PrefixClosed(fs, src, src + [n]);
    assert src in Under(fs, src) && src !in Under(fs, src + [n]);
    forall q | q in Under(fs, src + [n]) ensures q in Under(fs, src) {
      assert src <= src + [n] <= q;
    }
  }

  lemma NoSpecialBelow(fs: Fs, src: Path, n: string)
    requires NoSpecial(Subtree(fs, src))
    ensures NoSpecial(Subtree(fs, src + [n]))
  {
    forall r | r in Subtree(fs, src + [n]) ensures !Subtree(fs, src + [n])[r].Special? {
      SubtreeAt(fs, src + [n], r);
      SubtreeAt(fs, src, [n] + r);
      assert src + ([n] + r) == src + [n] + r;
    }
  }

  /** A directory at or behind dst: the calls for its entries, and two more. */
  lemma DirSteps(fs: Fs, src: Path, dst: Path, e: Conditions, made: Fs, steps: nat)
    requires src in fs && fs[src].Dir? && MkdirTarget(fs, dst) == At(dst, MAX_LINK_HOPS)
    requires made == Made(fs, dst, At(dst, MAX_LINK_HOPS), fs[src].mode)
    requires CopyList(made, src, dst, e.ls(ChildNames(made, src)), e, steps).ok
    ensures var c := CopyNode(fs, src, dst, e, steps + 2);
            c.ok && c.fs == CopyList(made, src, dst, e.ls(ChildNames(made, src)), e, steps).fs
  {
  }

  /** Wherever both places have something, both have a directory or both a file. */
  ghost predicate Compatible(fs: Fs, src: Path, dst: Path) {
    forall r :: CompatibleAt(fs, src, dst, r)
  }

  predicate CompatibleAt(fs: Fs, src: Path, dst: Path, r: Path) {
    src + r in fs && dst + r in fs ==>
      (fs[src + r].Dir? && fs[dst + r].Dir?) || (fs[src + r].File? && fs[dst + r].File?)
  }

  lemma AbsentCompatible(fs: Fs, src: Path, dst: Path)
    requires WellFormed(fs) && dst !in fs
    ensures Compatible(fs, src, dst)
  {
    forall r ensures CompatibleAt(fs, src, dst, r) {
      if dst + r in fs { PrefixClosed(fs, dst, dst + r); }
    }
  }

  lemma CompatibleBelow(fs: Fs, src: Path, dst: Path, n: string)
    requires Compatible(fs, src, dst)
    ensures Compatible(fs, src + [n], dst + [n])
  {
    forall r ensures CompatibleAt(fs, src + [n], dst + [n], r) {
      assert src + ([n] + r) == src + [n] + r && dst + ([n] + r) == dst + [n] + r;
      assert CompatibleAt(fs, src, dst, [n] + r);
    }
  }

  /** Over a compatible destination a copy opens no link and changes nothing else. */
  lemma CompatibleEffect(fs: Fs, src: Path, dst: Path, e: Conditions, steps: nat)
    requires WellFormed(fs) && Disjoint(src, dst) && dst != [] && Parent(dst) in fs && fs[Parent(dst)].Dir?
             && Lists(e.ls)
    requires Compatible(fs, src, dst)
    ensures var c := CopyNode(fs, src, dst, e, steps); !c.through && CopiesOver(fs, src, dst, c)
  {
    forall r | r in Subtree(fs, src) && r in Subtree(fs, dst) ensures !Subtree(fs, dst)[r].Link? {
      SubtreeAt(fs, src, r);
      SubtreeAt(fs, dst, r);
      assert CompatibleAt(fs, src, dst, r);
    }
    NoClashOpensNothing(fs, src, dst, e, steps);
    CopyResult(fs, src, dst, e, steps);
  }

  /** Such a copy completes, given enough calls. */
  lemma {:induction false} CompatibleCopy(fs: Fs, src: Path, dst: Path, e: Conditions) returns (steps: nat)
    requires WellFormed(fs) && Disjoint(src, dst) && dst != [] && Parent(dst) in fs && fs[Parent(dst)].Dir?
             && Lists(e.ls)
    requires src in fs && NoSpecial(Subtree(fs, src)) && Compatible(fs, src, dst)
    ensures CopyNode(fs, src, dst, e, steps).ok && Prune(CopyNode(fs, src, dst, e, steps).fs, dst) == Prune(fs, dst)
    decreases Under(fs, src), 1, 0
  {
    steps := CompatibleSteps(fs, src, dst, e);
    CompatibleEffect(fs, src, dst, e, steps);
  }

  lemma {:induction false} CompatibleSteps(fs: Fs, src: Path, dst: Path, e: Conditions) returns (steps: nat)
    requires WellFormed(fs) && Disjoint(src, dst) && dst != [] && Parent(dst) in fs && fs[Parent(dst)].Dir?
             && Lists(e.ls)
    requires src in fs && NoSpecial(Subtree(fs, src)) && Compatible(fs, src, dst)
    ensures CopyNode(fs, src, dst, e, steps).ok
    decreases Under(fs, src), 0, 1
  {
    RootOfTree(fs, src);
    assert src + [] == src && dst + [] == dst && CompatibleAt(fs, src, dst, []);
    steps := 2;
    if fs[src].Dir? {
      CompatibleDir(fs, src, dst, fs[src].mode);
      var made := Made(fs, dst, At(dst, MAX_LINK_HOPS), fs[src].mode);
      var names := e.ls(ChildNames(made, src));
      EntriesCompatible(made, src, dst, names);
      var s := CompatibleList(made, src, dst, names, e);
      DirSteps(fs, src, dst, e, made, s);
      steps := s + 2;
    }
  }

  /** The directory itself, made if it is not there. */
  lemma CompatibleDir(fs: Fs, src: Path, dst: Path, mode: Mode)
    requires WellFormed(fs) && Disjoint(src, dst) && dst != [] && Parent(dst) in fs && fs[Parent(dst)].Dir?
    requires Compatible(fs, src, dst) && src in fs && fs[src].Dir? && (dst in fs ==> fs[dst].Dir?)
    ensures MkdirTarget(fs, dst) == At(dst, MAX_LINK_HOPS)
    ensures var made := Made(fs, dst, At(dst, MAX_LINK_HOPS), mode);
            && WellFormed(made) && dst in made && made[dst].Dir? && Subtree(made, src) == Subtree(fs, src)
            && Under(made, src) == Under(fs, src) && Compatible(made, src, dst)
  {
    var made := Made(fs, dst, At(dst, MAX_LINK_HOPS), mode);
    MadeGrows(fs, dst, At(dst, MAX_LINK_HOPS), mode);
    if dst !in fs {
      PutFrame(fs, dst, made[dst]);
      ConfinedChange(fs, made, dst);
      SubtreeSame(fs, made, dst, dst, src);
      forall r ensures CompatibleAt(made, src, dst, r) {
        if dst + r in fs { PrefixClosed(fs, dst, dst + r); }
        assert dst + r in made ==> r == [];
        assert src + [] == src;
      }
    }
  }

  ghost predicate CompatibleEntries(fs: Fs, src: Path, dst: Path, names: seq<string>) {
    forall i :: 0 <= i < |names| ==>
      names[i] in ChildNames(fs, src) && Compatible(fs, src + [names[i]], dst + [names[i]])
  }

  lemma EntriesCompatible(fs: Fs, src: Path, dst: Path, names: seq<string>)
    requires Compatible(fs, src, dst) && forall n :: n in names ==> n in ChildNames(fs, src)
    ensures CompatibleEntries(fs, src, dst, names)
  {
    forall i | 0 <= i < |names| ensures names[i] in ChildNames(fs, src)
      && Compatible(fs, src + [names[i]], dst + [names[i]]) {
      CompatibleBelow(fs, src, dst, names[i]);
    }
  }

  lemma {:induction false} CompatibleList(fs: Fs, src: Path, dst: Path, names: seq<string>, e: Conditions)
    returns (steps: nat)
    requires WellFormed(fs) && Disjoint(src, dst) && dst in fs && fs[dst].Dir? && Lists(e.ls)
             && NoSpecial(Subtree(fs, src))
    requires Distinct(names) && CompatibleEntries(fs, src, dst, names)
    ensures CopyList(fs, src, dst, names, e, steps).ok
    ensures Prune(CopyList(fs, src, dst, names, e, steps).fs, dst) == Prune(fs, dst)
    decreases Under(fs, src), 0, 0, |names|
  {
    steps := 0;
    if names != [] {
      var n, rest := names[0], names[1..];
      ChildDisjoint(src, dst, n);
      ChildSmaller(fs, src, n);
      NoSpecialBelow(fs, src, n);
      assert Parent(dst + [n]) == dst && dst <= dst + [n];
      var s1 := CompatibleCopy(fs, src + [n], dst + [n], e);
      var one := CopyNode(fs, src + [n], dst + [n], e, s1);
      AfterEntry(fs, one.fs, src, dst, n, rest, dst + [n]);
      EntriesKept(fs, one.fs, src, dst, names);
      CopyGrows(fs, src + [n], dst + [n], e, s1);
      PruneWiden(one.fs, fs, dst, dst + [n]);
      var s2 := CompatibleList(one.fs, src, dst, rest, e);
      steps := ListSteps(fs, src, dst, names, e, s1, s2);
    }
  }

  /** Copying the first entry leaves the others compatible. */
  lemma EntriesKept(a: Fs, b: Fs, src: Path, dst: Path, names: seq<string>)
    requires names != [] && Distinct(names) && CompatibleEntries(a, src, dst, names)
    requires Subtree(a, src) == Subtree(b, src) && ChildNames(a, src) == ChildNames(b, src)
    requires forall m, x :: m != names[0] && dst + [m] <= x ==> (x in a <==> x in b) && (x in a ==> a[x] == b[x])
    ensures CompatibleEntries(b, src, dst, names[1..])
  {
    var rest := names[1..];
    forall i | 0 <= i < |rest| ensures rest[i] in ChildNames(b, src)
      && Compatible(b, src + [rest[i]], dst + [rest[i]]) {
      assert rest[i] == names[i + 1] && names[0] != names[i + 1];
      EntryKept(a, b, src, dst, rest[i]);
    }
  }

  lemma EntryKept(a: Fs, b: Fs, src: Path, dst: Path, m: string)
    requires Compatible(a, src + [m], dst + [m]) && Subtree(a, src) == Subtree(b, src)
    requires forall x :: dst + [m] <= x ==> (x in a <==> x in b) && (x in a ==> a[x] == b[x])
    ensures Compatible(b, src + [m], dst + [m])
  {
    forall r ensures CompatibleAt(b, src + [m], dst + [m], r) {
      assert CompatibleAt(a, src + [m], dst + [m], r);
      assert src + ([m] + r) == src + [m] + r && dst + [m] <= dst + [m] + r;
      SubtreeAt(a, src, [m] + r);
      SubtreeAt(b, src, [m] + r);
    }
  }

  /** A copy onto nothing completes, given enough calls. */
  lemma FreshCopy(fs: Fs, src: Path, dst: Path, e: Conditions) returns (steps: nat)
    requires WellFormed(fs) && Disjoint(src, dst) && dst != [] && Parent(dst) in fs && fs[Parent(dst)].Dir?
             && Lists(e.ls)
    requires src in fs && dst !in fs && NoSpecial(Subtree(fs, src))
    ensures CopyNode(fs, src, dst, e, steps).ok && Prune(CopyNode(fs, src, dst, e, steps).fs, dst) == Prune(fs, dst)
  {
    AbsentCompatible(fs, src, dst);
    steps := CompatibleCopy(fs, src, dst, e);
  }

  lemma FreshList(fs: Fs, src: Path, dst: Path, names: seq<string>, e: Conditions) returns (steps: nat)
    requires WellFormed(fs) && Disjoint(src, dst) && dst in fs && fs[dst].Dir? && Lists(e.ls)
             && NoSpecial(Subtree(fs, src))
    requires Distinct(names) && forall i :: 0 <= i < |names| ==>
             names[i] in ChildNames(fs, src) && dst + [names[i]] !in fs
    ensures CopyList(fs, src, dst, names, e, steps).ok
    ensures Prune(CopyList(fs, src, dst, names, e, steps).fs, dst) == Prune(fs, dst)
  {
    forall i | 0 <= i < |names| ensures names[i] in ChildNames(fs, src)
      && Compatible(fs, src + [names[i]], dst + [names[i]]) {
      AbsentCompatible(fs, src + [names[i]], dst + [names[i]]);
    }
    steps := CompatibleList(fs, src, dst, names, e);
  }

  /** The entries still to come are untouched. */
  lemma AfterEntry(a: Fs, b: Fs, src: Path, dst: Path, n: string, rest: seq<string>, q: Path)
    requires Disjoint(src, dst) && (Prune(b, dst + [n]) == Prune(a, dst + [n]) || ChangedAt(a, b, dst + [n], q))
    requires !(src <= q) && (dst + [n] <= q || !(dst <= q)) && n !in rest
    ensures ChangedAt(a, b, dst + [n], q)
    ensures Subtree(a, src) == Subtree(b, src) && Under(a, src) == Under(b, src)
            && ChildNames(a, src) == ChildNames(b, src)
    ensures forall i :: 0 <= i < |rest| ==> (dst + [rest[i]] in a <==> dst + [rest[i]] in b)
    ensures forall m, x :: m != n && dst + [m] <= x ==> (x in a <==> x in b) && (x in a ==> a[x] == b[x])
  {
    if Prune(b, dst + [n]) == Prune(a, dst + [n]) { ConfinedChange(a, b, dst + [n]); }
    ChildDisjoint(src, dst, n);
    assert dst <= dst + [n];
    if src <= dst + [n] { PrefixesCompare(src, dst, dst + [n]); }
    SubtreeSame(a, b, dst + [n], q, src);
    forall m, x | m != n && dst + [m] <= x ensures (x in a <==> x in b) && (x in a ==> a[x] == b[x]) {
      assert x[|dst|] == m && dst <= x;
      assert !(dst + [n] <= x);
    }
  }

  // ---- Over a single leftover link ------------------------------------------------------

  /** At dst there is only the link dst + r and the directories that lead to it. */
  ghost predicate Spine(fs: Fs, dst: Path, r: Path, target: Path) {
    && dst + r in fs && fs[dst + r].Link? && fs[dst + r].target == target
    && forall x :: x in fs && dst <= x ==> x <= dst + r
  }

  predicate LandsAt(g: Fs, target: Path, node: Node, q: Path) {
    var at := Locate(g, target, MAX_LINK_HOPS - 1);
    at.At? && at.path == q && ((node.File? && (q in g ==> g[q].File?)) || (node.Dir? && q in g && g[q].Dir?))
  }

  /** However the three places change, a link to `target` opens where `node` is to be
      made, and leads to q. */
  ghost predicate SurelyOpens(base: Fs, w: Places, target: Path, node: Node, q: Path) {
    Elsewhere(w, q) && forall g :: AlikeElsewhere(base, g, w) ==> LandsAt(g, target, node, q)
  }

  lemma StayingOutOpensSurely(base: Fs, w: Places, target: Path, node: Node)
    requires w.extracted != [] && w.root != [] && w.staged != []
    requires StaysOut(base, target, MAX_LINK_HOPS - 1, w) && Opens(base, target, node)
    ensures SurelyOpens(base, w, target, node, Locate(base, target, MAX_LINK_HOPS - 1).path)
  {
    var q := Locate(base, target, MAX_LINK_HOPS - 1).path;
    SameLocation(base, base, target, MAX_LINK_HOPS - 1, w);
    forall g | AlikeElsewhere(base, g, w) ensures LandsAt(g, target, node, q) {
      SameLocation(base, g, target, MAX_LINK_HOPS - 1, w);
    }
  }

  /** A file, or a directory with nothing in it. */
  predicate Hollow(fs: Fs, p: Path) {
    p in fs && (fs[p].File? || (fs[p].Dir? && ChildNames(fs, p) == {}))
  }

  /** A copy over a leftover link that opens completes too; it writes at dst and where
      the link leads, and nowhere else. */
  lemma {:induction false} SpineCopy(fs: Fs, src: Path, dst: Path, r: Path, e: Conditions, base: Fs, w: Places,
                                     target: Path, q: Path) returns (steps: nat)
    requires WellFormed(fs) && Disjoint(src, dst) && dst != [] && Parent(dst) in fs && fs[Parent(dst)].Dir?
             && Lists(e.ls)
    requires w.extracted != [] && w.root != [] && w.staged != [] && w.root <= dst && w.staged <= src
    requires src in fs && NoSpecial(Subtree(fs, src)) && Spine(fs, dst, r, target) && Hollow(fs, src + r)
    requires AlikeElsewhere(base, fs, w) && SurelyOpens(base, w, target, fs[src + r], q)
    ensures CopyNode(fs, src, dst, e, steps).ok
    ensures ChangedAt(fs, CopyNode(fs, src, dst, e, steps).fs, dst, q)
    decreases |r|, 3, 0
  {
    if r == [] {
      assert src + r == src && dst + r == dst;
      steps := LinkReplaced(fs, src, dst, e, base, w, target, q);
    } else {
      var names := e.ls(ChildNames(fs, src));
      SpineChild(fs, src, dst, r, target, names);
      var s := SpineList(fs, src, dst, names, r, e, base, w, target, q);
      steps := SpineDown(fs, src, dst, e, s, names, q);
    }
  }

  lemma SpineDown(fs: Fs, src: Path, dst: Path, e: Conditions, s: nat, names: seq<string>, q: Path) returns (steps: nat)
    requires src in fs && fs[src].Dir? && names == e.ls(ChildNames(fs, src))
    requires MkdirTarget(fs, dst) == At(dst, MAX_LINK_HOPS) && Made(fs, dst, At(dst, MAX_LINK_HOPS), fs[src].mode) == fs
    requires var c := CopyList(fs, src, dst, names, e, s); c.ok && ChangedAt(fs, c.fs, dst, q)
    ensures CopyNode(fs, src, dst, e, steps).ok
    ensures ChangedAt(fs, CopyNode(fs, src, dst, e, steps).fs, dst, q)
  {
    DirSteps(fs, src, dst, e, fs, s);
    steps := s + 2;
  }

  lemma SomethingInside(names: seq<string>)
    ensures names == [] || exists n :: n in names
  {
    if names != [] { assert names[0] in names; }
  }

  lemma NothingListed(ls: Listing)
    requires Lists(ls)
    ensures ls({}) == []
  {
    var names, none: set<string> := ls({}), {};
    assert forall n :: n in names <==> n in none;
    SomethingInside(names);
  }

  /** The node that lies where the link is. */
  lemma LinkReplaced(fs: Fs, src: Path, dst: Path, e: Conditions, base: Fs, w: Places, target: Path, q: Path)
    returns (steps: nat)
    requires WellFormed(fs) && Lists(e.ls) && Hollow(fs, src) && dst in fs && fs[dst].Link? && fs[dst].target == target
    requires w.extracted != [] && w.root != [] && w.staged != []
    requires AlikeElsewhere(base, fs, w) && SurelyOpens(base, w, target, fs[src], q)
    ensures CopyNode(fs, src, dst, e, steps).ok
    ensures ChangedAt(fs, CopyNode(fs, src, dst, e, steps).fs, dst, q)
  {
    steps := 2;
    if fs[src].Dir? {
      NothingListed(e.ls);
    }
  }

  lemma PathStep(p: Path, r: Path)
    requires r != []
    ensures p + [r[0]] + r[1..] == p + r && p <= p + [r[0]] <= p + r && p != p + r
  {
  }

  /** One level down: only the branch with the link is there. */
  lemma SpineChild(fs: Fs, src: Path, dst: Path, r: Path, target: Path, names: seq<string>)
    requires WellFormed(fs) && r != [] && src + r in fs && Spine(fs, dst, r, target) && src in fs
    requires forall n :: n in names <==> n in ChildNames(fs, src)
    ensures fs[src].Dir? && dst in fs && fs[dst].Dir? && Spine(fs, dst + [r[0]], r[1..], target) && r[0] in names
    ensures MkdirTarget(fs, dst) == At(dst, MAX_LINK_HOPS) && Made(fs, dst, At(dst, MAX_LINK_HOPS), fs[src].mode) == fs
    ensures forall i :: 0 <= i < |names| ==>
            names[i] in ChildNames(fs, src) && (names[i] != r[0] ==> dst + [names[i]] !in fs)
  {
    PathStep(src, r);
    PathStep(dst, r);
    PrefixClosed(fs, src, src + r);
    PrefixClosed(fs, dst, dst + r);
    PrefixClosed(fs, src + [r[0]], src + r);
    ChildNamed(fs, src, r[0]);
    forall i | 0 <= i < |names| && names[i] != r[0] ensures dst + [names[i]] !in fs {
      assert (dst + r)[|dst|] == r[0] && (dst + [names[i]])[|dst|] == names[i];
      assert !(dst + [names[i]] <= dst + r);
    }
  }

  lemma {:induction false} SpineList(fs: Fs, src: Path, dst: Path, names: seq<string>, r: Path, e: Conditions, base: Fs,
                                     w: Places, target: Path, q: Path)
    returns (steps: nat)
    requires WellFormed(fs) && Disjoint(src, dst) && dst in fs && fs[dst].Dir? && Lists(e.ls) && r != []
    requires w.extracted != [] && w.root != [] && w.staged != [] && w.root <= dst && w.staged <= src
    requires NoSpecial(Subtree(fs, src)) && Spine(fs, dst + [r[0]], r[1..], target) && Hollow(fs, src + r)
    requires AlikeElsewhere(base, fs, w) && SurelyOpens(base, w, target, fs[src + r], q)
    requires Distinct(names) && r[0] in names
    requires forall i :: 0 <= i < |names| ==>
             names[i] in ChildNames(fs, src) && (names[i] != r[0] ==> dst + [names[i]] !in fs)
    ensures CopyList(fs, src, dst, names, e, steps).ok
    ensures ChangedAt(fs, CopyList(fs, src, dst, names, e, steps).fs, dst, q)
    decreases |r|, 1, |names|
  {
    if names[0] == r[0] {
      steps := SpineFirst(fs, src, dst, names, r, e, base, w, target, q);
    } else {
      var n, rest := names[0], names[1..];
      assert forall i :: 0 <= i < |rest| ==> rest[i] == names[i + 1];
      var s1 := EntryBeforeSpine(fs, src, dst, names, r, e, base, w, target, q);
      var one := CopyNode(fs, src + [n], dst + [n], e, s1);
      assert r[0] in rest;
      var s2 := SpineList(one.fs, src, dst, rest, r, e, base, w, target, q);
      ChangesBefore(fs, one.fs, CopyList(one.fs, src, dst, rest, e, s2).fs, dst, n, q);
      steps := ListSteps(fs, src, dst, names, e, s1, s2);
    }
  }

  /** The branch with the link, and then the others, onto nothing. */
  lemma {:induction false} SpineFirst(fs: Fs, src: Path, dst: Path, names: seq<string>, r: Path, e: Conditions,
                                      base: Fs, w: Places, target: Path, q: Path)
    returns (steps: nat)
    requires WellFormed(fs) && Disjoint(src, dst) && dst in fs && fs[dst].Dir? && Lists(e.ls) && r != []
    requires w.extracted != [] && w.root != [] && w.staged != [] && w.root <= dst && w.staged <= src
    requires NoSpecial(Subtree(fs, src)) && Spine(fs, dst + [r[0]], r[1..], target) && Hollow(fs, src + r)
    requires AlikeElsewhere(base, fs, w) && SurelyOpens(base, w, target, fs[src + r], q)
    requires Distinct(names) && names != [] && names[0] == r[0]
    requires forall i :: 0 <= i < |names| ==>
             names[i] in ChildNames(fs, src) && (names[i] != r[0] ==> dst + [names[i]] !in fs)
    ensures CopyList(fs, src, dst, names, e, steps).ok
    ensures ChangedAt(fs, CopyList(fs, src, dst, names, e, steps).fs, dst, q)
    decreases |r|, 0, 0
  {
    var n, rest := names[0], names[1..];
    OutsideBoth(w, src, dst, q);
    ChildDisjoint(src, dst, n);
    ChildSmaller(fs, src, n);
    NoSpecialBelow(fs, src, n);
    assert Parent(dst + [n]) == dst && dst <= dst + [n] && src <= src + [n];
    assert forall i :: 0 <= i < |rest| ==> rest[i] == names[i + 1];
    PathStep(src, r);
    var s1 := SpineCopy(fs, src + [n], dst + [n], r[1..], e, base, w, target, q);
    var one := CopyNode(fs, src + [n], dst + [n], e, s1);
    AfterEntry(fs, one.fs, src, dst, n, rest, q);
    CopyGrows(fs, src + [n], dst + [n], e, s1);
    var s2 := FreshList(one.fs, src, dst, rest, e);
    ChangesAdd(fs, one.fs, CopyList(one.fs, src, dst, rest, e, s2).fs, dst, n, q);
    steps := ListSteps(fs, src, dst, names, e, s1, s2);
  }

  /** An entry in another branch is copied onto nothing and leaves the link as it was. */
  lemma {:induction false} EntryBeforeSpine(fs: Fs, src: Path, dst: Path, names: seq<string>, r: Path, e: Conditions,
                                            base: Fs, w: Places, target: Path, q: Path)
    returns (steps: nat)
    requires WellFormed(fs) && Disjoint(src, dst) && dst in fs && fs[dst].Dir? && Lists(e.ls) && r != []
    requires w.extracted != [] && w.root != [] && w.staged != [] && w.root <= dst && w.staged <= src
    requires NoSpecial(Subtree(fs, src)) && Spine(fs, dst + [r[0]], r[1..], target) && Hollow(fs, src + r)
    requires AlikeElsewhere(base, fs, w)
    requires Distinct(names) && names != [] && names[0] != r[0]
    requires forall i :: 0 <= i < |names| ==>
             names[i] in ChildNames(fs, src) && (names[i] != r[0] ==> dst + [names[i]] !in fs)
    ensures var n := names[0]; var one := CopyNode(fs, src + [n], dst + [n], e, steps);
            && one.ok && WellFormed(one.fs) && dst in one.fs && one.fs[dst].Dir?
               && ChangedAt(fs, one.fs, dst + [n], dst + [n])
            && Subtree(one.fs, src) == Subtree(fs, src) && ChildNames(one.fs, src) == ChildNames(fs, src)
            && Spine(one.fs, dst + [r[0]], r[1..], target) && Hollow(one.fs, src + r) && one.fs[src + r] == fs[src + r]
            && AlikeElsewhere(base, one.fs, w)
            && forall i :: 0 <= i < |names[1..]| && names[1..][i] != r[0] ==> dst + [names[1..][i]] !in one.fs
  {
    var n, rest := names[0], names[1..];
    ChildDisjoint(src, dst, n);
    ChildSmaller(fs, src, n);
    NoSpecialBelow(fs, src, n);
    assert Parent(dst + [n]) == dst && dst <= dst + [n] && src <= src + [n];
    assert forall i :: 0 <= i < |rest| ==> rest[i] == names[i + 1];
    steps := FreshCopy(fs, src + [n], dst + [n], e);
    var one := CopyNode(fs, src + [n], dst + [n], e, steps);
    AfterEntry(fs, one.fs, src, dst, n, rest, dst + [n]);
    CopyGrows(fs, src + [n], dst + [n], e, steps);
    SpineKept(fs, one.fs, src, dst, n, r, base, w, target, q);
  }

  lemma OutsideBoth(w: Places, src: Path, dst: Path, q: Path)
    requires Elsewhere(w, q) && w.root <= dst && w.staged <= src
    ensures !(src <= q) && !(dst <= q)
  {
  }

  lemma ChangesAdd(a: Fs, b: Fs, c: Fs, dst: Path, n: string, q: Path)
    requires ChangedAt(a, b, dst + [n], q) && Prune(c, dst) == Prune(b, dst)
    ensures ChangedAt(a, c, dst, q)
  {
    ConfinedChange(b, c, dst);
    assert dst <= dst + [n];
  }

  lemma ChangesBefore(a: Fs, b: Fs, c: Fs, dst: Path, n: string, q: Path)
    requires ChangedAt(a, b, dst + [n], dst + [n]) && ChangedAt(b, c, dst, q)
    ensures ChangedAt(a, c, dst, q)
  {
    assert dst <= dst + [n];
  }

  /** A copy of another entry leaves the leftover link, and what it leads to, as they were. */
  lemma SpineKept(a: Fs, b: Fs, src: Path, dst: Path, n: string, r: Path, base: Fs, w: Places, target: Path, q: Path)
    requires r != [] && n != r[0] && ChangedAt(a, b, dst + [n], dst + [n]) && w.root <= dst
    requires Subtree(a, src) == Subtree(b, src) && src + r in a
    requires Spine(a, dst + [r[0]], r[1..], target) && AlikeElsewhere(base, a, w) && Hollow(a, src + r)
             && Disjoint(src, dst)
    ensures Spine(b, dst + [r[0]], r[1..], target) && AlikeElsewhere(base, b, w) && Hollow(b, src + r)
            && b[src + r] == a[src + r]
  {
    forall x | x in a.Keys + b.Keys && dst + [r[0]] <= x ensures x in a && x in b && a[x] == b[x] {
      assert x[|dst|] == r[0] && (dst + [n])[|dst|] == n;
    }
    assert dst + [r[0]] <= dst + [r[0]] + r[1..] && dst <= dst + [n] && src <= src + r;
    forall q | Elsewhere(w, q) ensures (q in base <==> q in b) && (q in base ==> base[q] == b[q]) {
      assert !(dst + [n] <= q);
    }
    SubtreeAt(a, src, r);
    SubtreeAt(b, src, r);
    if src + r <= dst + [n] { PrefixesCompare(src, dst, dst + [n]); }
    if dst + [n] <= src + r { PrefixesCompare(src, dst, src + r); }
    SubtreeSame(a, b, dst + [n], dst + [n], src + r);
  }
}
