/** A link of the archive that opens only once a part of the archive is at the site's
    path: nothing about the link shows it before the restore, trying the copy does. */
module LaterLink {
  import opened FileTree
  import opened CopyTree
  import opened DiskState
  import opened CopyRun
  import opened Restore
  import opened OpenedLink
  import opened RestoreLoss
  import opened LinkClash
  import opened Leftovers
  import opened OpenClash

  /** The site is the file a; the archive is a link a -> x/y, into the site, and the
      directory x. */
  ghost predicate LinksAhead(fs: Fs, w: Places, a: string, x: string, y: string) {
    var site, archive := Subtree(fs, w.root), Subtree(fs, w.extracted);
    && a != x && site.Keys == {[], [a]} && site[[]].Dir? && site[[a]].File?
    && archive.Keys == {[], [a], [x]} && archive[[]].Dir? && archive[[x]].Dir?
    && archive[[a]].Link? && archive[[a]].target == w.root + [x] + [y]
  }

  // ---- Before the restore the link leads nowhere --------------------------------------------

  lemma LeadsNowhere(fs: Fs, w: Places, a: string, x: string, y: string)
    requires WellFormed(fs) && LinksAhead(fs, w, a, x, y)
    ensures Locate(fs, w.root + [x] + [y], MAX_LINK_HOPS - 1) == Nowhere
  {
    RootOfTree(fs, w.root);
    SubtreeAt(fs, w.root, [x]);
    LocateDir(fs, w.root, MAX_LINK_HOPS - 1);
    assert Parent(w.root + [x]) == w.root && Parent(w.root + [x] + [y]) == w.root + [x];
    assert Locate(fs, w.root + [x], MAX_LINK_HOPS - 1) == At(w.root + [x], MAX_LINK_HOPS - 1);
  }

  lemma NothingOpensYet(fs: Fs, w: Places, a: string, x: string, y: string)
    requires WellFormed(fs) && LinksAhead(fs, w, a, x, y)
    ensures !HasOpenClash(fs, w)
  {
    var site, archive := Subtree(fs, w.root), Subtree(fs, w.extracted);
    LeadsNowhere(fs, w, a, x, y);
    forall r | Clashes(site, archive, r) ensures !Opens(fs, archive[r].target, site[r]) {
      assert r == [a];
    }
  }

  // ---- With all of the archive at the root it opens --------------------------------------------

  lemma AllMayBeLeft(fs: Fs, w: Places, a: string, x: string, y: string)
    requires WellFormed(fs) && LinksAhead(fs, w, a, x, y)
    ensures Leaves(fs, w, {[], [a], [x]}, {[]}) && NoSpecial(Subtree(fs, w.extracted)) && w.extracted in fs
            && w.root in fs
  {
    SubtreeKeys(fs, w.extracted);
    RootOfTree(fs, w.extracted);
    RootOfTree(fs, w.root);
  }

  /** What the disk to try the copy on looks like. */
  ghost predicate Ready(t: Fs, src: Path, dst: Path, a: string, x: string, y: string) {
    && src in t && t[src].Dir? && ChildNames(t, src) == {a} && src + [a] in t && t[src + [a]].File?
    && dst in t && t[dst].Dir? && dst + [x] in t && t[dst + [x]].Dir? && dst + [x] + [y] !in t
    && dst + [a] in t && t[dst + [a]].Link? && t[dst + [a]].target == dst + [x] + [y]
  }

  lemma SiteIsAside(fs: Fs, t: Fs, w: Places, a: string, x: string, y: string)
    requires LinksAhead(fs, w, a, x, y) && Subtree(t, w.staged) == Subtree(fs, w.root)
    ensures w.staged in t && t[w.staged].Dir? && ChildNames(t, w.staged) == {a} && w.staged + [a] in t
            && t[w.staged + [a]].File?
  {
    RootOfTree(t, w.staged);
    SubtreeAt(t, w.staged, [a]);
    forall n ensures n in ChildNames(t, w.staged) <==> n in {a} {
      ChildNamed(t, w.staged, n);
      SubtreeAt(t, w.staged, [n]);
    }
  }

  lemma ArchiveIsLeft(fs: Fs, t: Fs, w: Places, a: string, x: string, y: string)
    requires LinksAhead(fs, w, a, x, y)
             && Subtree(t, w.root) == Part(CopyImage(Subtree(fs, w.extracted)), {[], [a], [x]})
    ensures w.root in t && t[w.root].Dir? && w.root + [x] in t && t[w.root + [x]].Dir? && w.root + [x] + [y] !in t
    ensures w.root + [a] in t && t[w.root + [a]].Link? && t[w.root + [a]].target == w.root + [x] + [y]
  {
    RootOfTree(t, w.root);
    SubtreeAt(t, w.root, [a]);
    SubtreeAt(t, w.root, [x]);
    SubtreeAt(t, w.root, [x, y]);
    assert w.root + [x, y] == w.root + [x] + [y];
  }

  /** A copy of one file over the link. */
  lemma CompletesOverTheLink(t: Fs, src: Path, dst: Path, n: string, x: string, y: string, ls: Listing)
    requires Lists(ls) && WellFormed(t) && Ready(t, src, dst, n, x, y)
    ensures CopyNode(t, src, dst, Conditions(ls, 0), 4).ok && CopyNode(t, src, dst, Conditions(ls, 0), 4).through
  {
    OneName(ls, n);
    LocateDir(t, dst + [x], MAX_LINK_HOPS - 1);
    assert Parent(dst + [x] + [y]) == dst + [x];
    var e := Conditions(ls, 0);
    var one := CopyNode(t, src + [n], dst + [n], e, 2);
    assert one.ok && one.through;
    assert [n][1..] == [];
    assert CopyList(one.fs, src, dst, [], e, one.left).ok;
    assert CopyList(t, src, dst, [n], e, 2).ok && CopyList(t, src, dst, [n], e, 2).through;
  }

  lemma OneName(ls: Listing, n: string)
    requires Lists(ls)
    ensures ls({n}) == [n]
  {
    var names := ls({n});
    assert forall x :: x in names <==> x in {n};
    if |names| != 1 { NotDistinct(names, n); }
  }

  lemma NotDistinct(names: seq<string>, n: string)
    requires |names| != 1 && n in names && forall x :: x in names ==> x == n
    ensures !Distinct(names)
  {
    assert names[0] in names && names[1] in names;
  }

  /** No link of the archive opens before the restore, and it can lose the site. */
  lemma LosesThoughNothingOpens(fs: Fs, w: Places, ls: Listing, a: string, x: string, y: string)
    returns (run: SwapFaults)
    requires CanRestore(fs, w) && Lists(ls) && w.staged !in fs && LinksAhead(fs, w, a, x, y)
    ensures !HasOpenClash(fs, w) && Lost(fs, w, ls, run)
  {
    var kept, unmoved: set<Path> := {[], [a], [x]}, {[]};
    var t := TrialDisk(fs, w, kept, unmoved);
    NothingOpensYet(fs, w, a, x, y);
    AllMayBeLeft(fs, w, a, x, y);
    TrialParts(fs, w, kept, unmoved);
    var steps := TrialReached(fs, w, ls, kept, unmoved);
    SiteIsAside(fs, t, w, a, x, y);
    ArchiveIsLeft(fs, t, w, a, x, y);
    CompletesOverTheLink(t, w.staged, w.root, a, x, y, ls);
    run := LeftoverLoses(fs, w, ls, kept, unmoved, 4, 0);
  }

  // ---- One such disk ---------------------------------------------------------------------------

  const PLAIN := Mode(0, false, false, false)
  const TOP := Dir(AGENT, PLAIN)

  const W := Places(["tmp", "site"], ["site"], ["old"])

  /** The live site has the file a; the extracted archive has a -> site/x/y and the directory x. */
  function Before(): Fs {
    map[[] := TOP, ["site"] := TOP, ["site", "a"] := File("A", AGENT, PLAIN), ["tmp"] := TOP, ["tmp", "site"] := TOP,
        ["tmp", "site", "a"] := Link(["site", "x", "y"], AGENT), ["tmp", "site", "x"] := TOP]
  }

  lemma PlacesOf(q: Path)
    ensures W.root <= q <==> q != [] && q[0] == "site"
    ensures W.staged <= q <==> q != [] && q[0] == "old"
    ensures W.extracted <= q <==> |q| > 1 && q[0] == "tmp" && q[1] == "site"
    ensures "tmp" != "site" && "tmp" != "old" && "site" != "old"
  {
    if q != [] { assert q[..1] == [q[0]]; }
    if |q| > 1 { assert q[..2] == [q[0], q[1]]; }
  }

  lemma BeforeIsWellFormed()
    ensures CanRestore(Before(), W)
  {
    PlacesOf(W.root);
    PlacesOf(W.staged);
    PlacesOf(W.extracted);
    assert Parent(["site", "a"]) == ["site"] && Parent(["site"]) == [] && Parent(["old"]) == []
           && Parent(["tmp"]) == [];
    assert Parent(["tmp", "site", "a"]) == ["tmp", "site"] == Parent(["tmp", "site", "x"])
           && Parent(["tmp", "site"]) == ["tmp"];
  }

  lemma SiteIs(r: Path)
    ensures var site := Subtree(Before(), W.root);
            && (r in site <==> r == [] || r == ["a"]) && (r == [] ==> site[r] == TOP)
            && (r == ["a"] ==> site[r] == File("A", AGENT, PLAIN))
  {
    SubtreeAt(Before(), W.root, r);
    PlacesOf(W.root + r);
    assert W.root + [] == ["site"] && W.root + ["a"] == ["site", "a"];
    if W.root + r == ["site", "a"] { assert r == ["site", "a"][1..]; }
  }

  lemma ArchiveIs(r: Path)
    ensures var archive := Subtree(Before(), W.extracted);
            && (r in archive <==> r == [] || r == ["a"] || r == ["x"]) && (r == [] ==> archive[r] == TOP)
            && (r == ["a"] ==> archive[r] == Link(["site", "x", "y"], AGENT)) && (r == ["x"] ==> archive[r] == TOP)
  {
    SubtreeAt(Before(), W.extracted, r);
    var p := W.extracted + r;
    PlacesOf(p);
    assert W.extracted + [] == ["tmp", "site"];
    assert W.extracted + ["a"] == ["tmp", "site", "a"] && W.extracted + ["x"] == ["tmp", "site", "x"];
    if p == ["tmp", "site", "a"] || p == ["tmp", "site", "x"] { assert r == p[2..]; }
  }

  lemma LinkIsAhead()
    ensures LinksAhead(Before(), W, "a", "x", "y")
  {
    var site, archive := Subtree(Before(), W.root), Subtree(Before(), W.extracted);
    SiteIs([]);
    SiteIs(["a"]);
    ArchiveIs([]);
    ArchiveIs(["a"]);
    ArchiveIs(["x"]);
    forall r ensures (r in site.Keys <==> r in {[], ["a"]}) && (r in archive.Keys <==> r in {[], ["a"], ["x"]}) {
      SiteIs(r);
      ArchiveIs(r);
    }
    assert ["site", "x", "y"] == W.root + ["x"] + ["y"];
  }

  lemma ThereIsOne(ls: Listing) returns (run: SwapFaults)
    requires Lists(ls)
    ensures CanRestore(Before(), W) && !HasOpenClash(Before(), W) && Lost(Before(), W, ls, run)
  {
    BeforeIsWellFormed();
    LinkIsAhead();
    run := LosesThoughNothingOpens(Before(), W, ls, "a", "x", "y");
  }
}
