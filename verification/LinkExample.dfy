/** One run from a request on: the archive has a link a -> b inside the site. The
    restore reports a completed rollback, and the content of a is gone. */
module LinkExample {
  import opened FileTree
  import opened CopyTree
  import opened DiskState
  import opened CopyRun
  import opened MovePath
  import opened Sanitize
  import opened Restore

  const PLAIN := Mode(0, false, false, false)
  const TOP := Dir(AGENT, PLAIN)

  const W := Places(["tmp", "site"], ["site"], ["old"])
  const SITE_A: Path := ["site", "a"]
  const SITE_B: Path := ["site", "b"]
  const OLD_A: Path := ["old", "a"]
  const OLD_B: Path := ["old", "b"]
  const NEW_A: Path := ["tmp", "site", "a"]

  /** The live site has files a and b; the extracted archive has the link. */
  function Before(): Fs {
    map[[] := TOP, ["site"] := TOP, SITE_A := File("A", AGENT, PLAIN), SITE_B := File("B", AGENT, PLAIN),
        ["tmp"] := TOP, ["tmp", "site"] := TOP, NEW_A := Link(SITE_B, AGENT)]
  }

  function SiteAside(): Fs {
    map[[] := TOP, ["old"] := TOP, OLD_A := File("A", AGENT, PLAIN), OLD_B := File("B", AGENT, PLAIN),
        ["tmp"] := TOP, ["tmp", "site"] := TOP, NEW_A := Link(SITE_B, AGENT)]
  }

  function ArchiveCopied(): Fs {
    SiteAside()[["site"] := TOP][SITE_A := Link(SITE_B, AGENT)]
  }

  /** The copied archive's directory cannot be removed where it was, nor the link where it is now. */
  function Leftover(): Fs {
    ArchiveCopied() - {NEW_A}
  }

  /** b was written twice: through the link, and then by itself. */
  function Rolled(): Fs {
    Leftover()[SITE_B := File("B", AGENT, PLAIN)]
  }

  function After(): Fs {
    map[[] := TOP, ["tmp"] := TOP, ["tmp", "site"] := TOP, ["site"] := TOP, SITE_A := Link(SITE_B, AGENT),
        SITE_B := File("B", AGENT, PLAIN)]
  }

  ghost predicate HoldsSomewhere(fs: Fs, content: string) {
    exists p :: p in fs && fs[p].File? && fs[p].content == content
  }

  /** Directories are listed in the order of their names. */
  ghost predicate ListsInOrder(ls: Listing) {
    Lists(ls) && ls({"a"}) == ["a"] && ls({"a", "b"}) == ["a", "b"]
  }

  lemma BeforeIsWellFormed()
    ensures CanRestore(Before(), W)
  {
    assert Parent(SITE_A) == ["site"] && Parent(SITE_B) == ["site"] && Parent(["site"]) == [] && Parent(["old"]) == [];
    assert Parent(NEW_A) == ["tmp", "site"] && Parent(["tmp", "site"]) == ["tmp"] && Parent(["tmp"]) == [];
    assert "tmp" != "site" && "tmp" != "old" && "site" != "old";
    assert W.extracted[0] == "tmp" && W.root[0] == "site" && W.staged[0] == "old";
  }

  /** A tree of a directory with two files. */
  lemma TwoFiles(fs: Fs, p: Path, top: Node, a: Node, b: Node)
    requires p in fs && fs[p] == top && p + ["a"] in fs && fs[p + ["a"]] == a && p + ["b"] in fs && fs[p + ["b"]] == b
    requires forall q :: q in fs && p <= q ==> q == p || q == p + ["a"] || q == p + ["b"]
    ensures Subtree(fs, p) == map[[] := top, ["a"] := a, ["b"] := b]
  {
    var s, t: Tree := Subtree(fs, p), map[[] := top, ["a"] := a, ["b"] := b];
    assert p + [] == p;
    forall r
      ensures r in s <==> r in t
      ensures r in s ==> r in t && s[r] == t[r]
    {
      SubtreeAt(fs, p, r);
      assert (p + r)[|p|..] == r && (p + ["a"])[|p|..] == ["a"] && (p + ["b"])[|p|..] == ["b"] && p[|p|..] == [];
    }
  }

  /** The names of the directories at the top are all different. */
  lemma Apart(q: Path)
    ensures "tmp" != "site" && "tmp" != "old" && "site" != "old"
    ensures W.root <= q <==> q != [] && q[0] == "site"
    ensures W.staged <= q <==> q != [] && q[0] == "old"
    ensures W.extracted <= q ==> q != [] && q[0] == "tmp"
  {
    assert W.extracted[0] == "tmp" && W.root[0] == "site" && W.staged[0] == "old";
    if q != [] { assert q[..1] == [q[0]]; }
  }

  lemma SiteMoved()
    ensures Subtree(SiteAside(), W.staged) == Subtree(Before(), W.root)
  {
    assert W.root + ["a"] == SITE_A && W.root + ["b"] == SITE_B && W.staged + ["a"] == OLD_A
           && W.staged + ["b"] == OLD_B;
    forall q | q in Before() && W.root <= q ensures q == W.root || q == SITE_A || q == SITE_B { Apart(q); }
    forall q | q in SiteAside() && W.staged <= q ensures q == W.staged || q == OLD_A || q == OLD_B { Apart(q); }
    TwoFiles(Before(), W.root, TOP, File("A", AGENT, PLAIN), File("B", AGENT, PLAIN));
    TwoFiles(SiteAside(), W.staged, TOP, File("A", AGENT, PLAIN), File("B", AGENT, PLAIN));
  }

  lemma RestUnmoved()
    ensures Prune(SiteAside(), W.staged) == Prune(Prune(Before(), W.root), W.staged)
  {
    var a, b := Prune(SiteAside(), W.staged), Prune(Prune(Before(), W.root), W.staged);
    forall q
      ensures q in a <==> q in b
      ensures q in a ==> q in b && a[q] == b[q]
    {
      Apart(q);
    }
  }

  lemma Renaming()
    ensures CanRename(Before(), W.root, W.staged) && Renamed(Before(), W.root, W.staged) == SiteAside()
  {
    Apart(W.root);
    SiteMoved();
    RestUnmoved();
    assert W.staged !in Before();
    IsGraft(SiteAside(), Prune(Before(), W.root), W.staged, Subtree(Before(), W.root));
  }

  lemma NamesAre(fs: Fs, p: Path, names: set<string>)
    requires forall n :: p + [n] in fs <==> n in names
    ensures ChildNames(fs, p) == names
  {
    forall n ensures n in ChildNames(fs, p) <==> n in names {
      ChildNamed(fs, p, n);
    }
  }

  lemma Copying(ls: Listing)
    requires ListsInOrder(ls)
    ensures CopyNode(SiteAside(), W.extracted, W.root, Conditions(ls, 0), 3) == Copied(ArchiveCopied(), 0, true, false)
  {
    var e, made := Conditions(ls, 0), SiteAside()[["site"] := TOP];
    assert W.extracted + ["a"] == NEW_A && W.root + ["a"] == SITE_A;
    forall n ensures W.extracted + [n] in made <==> n in {"a"} {
      assert (W.extracted + [n])[2] == n && |W.extracted + [n]| == 3;
    }
    NamesAre(made, W.extracted, {"a"});
    assert made == Made(SiteAside(), W.root, MkdirTarget(SiteAside(), W.root), PLAIN);
    var one := CopyNode(made, NEW_A, SITE_A, e, 1);
    assert one == Copied(ArchiveCopied(), 0, true, false);
    assert ["a"][1..] == [];
    assert CopyList(one.fs, W.extracted, W.root, [], e, 0) == Copied(one.fs, 0, true, false);
    assert CopyList(made, W.extracted, W.root, ["a"], e, 1) == Copied(ArchiveCopied(), 0, true, false);
  }

  lemma ArchiveLeft()
    ensures Cleared(ArchiveCopied(), W.extracted, {W.extracted}) == Leftover() && W.extracted in Leftover()
  {
    var fs := ArchiveCopied();
    assert Held(fs, {W.extracted}, W.extracted);
    forall q | q in fs ensures (W.extracted <= q ==> Held(fs, {W.extracted}, q)) <==> q != NEW_A {
      Apart(q);
      if W.extracted <= q { assert q == W.extracted || q == NEW_A; }
    }
  }

  lemma LinkLeft()
    ensures Cleared(Leftover(), W.root, {SITE_A}) == Leftover()
  {
    var fs := Leftover();
    assert W.root <= SITE_A;
    forall q | q in fs && W.root <= q ensures Held(fs, {SITE_A}, q) {
      Apart(q);
      assert q == W.root || q == SITE_A;
    }
  }

  lemma AsideGone()
    ensures Cleared(Rolled(), W.staged, {}) == After()
  {
    var fs, none: set<Path> := Rolled(), {};
    forall q | q in fs ensures (W.staged <= q ==> Held(fs, none, q)) <==> q in After() {
      Apart(q);
      assert !Held(fs, none, q);
    }
    assert After().Keys <= fs.Keys;
  }

  lemma CopyingBack(ls: Listing)
    requires ListsInOrder(ls)
    ensures CopyNode(Leftover(), W.staged, W.root, Conditions(ls, 0), 6) == Copied(Rolled(), 0, true, true)
  {
    NamesAside();
    CopyingFiles(Conditions(ls, 0), Leftover());
    ExistingDirCopied(Leftover(), W.staged, W.root, Conditions(ls, 0), Copied(Rolled(), 0, true, true), 4);
  }

  lemma ExistingDirCopied(fs: Fs, src: Path, dst: Path, e: Conditions, r: Copied, steps: nat)
    requires src in fs && fs[src].Dir? && dst in fs && fs[dst].Dir?
    requires CopyList(fs, src, dst, e.ls(ChildNames(fs, src)), e, steps) == r
    ensures CopyNode(fs, src, dst, e, steps + 2) == r
  {
  }

  lemma NamesAside()
    ensures ChildNames(Leftover(), W.staged) == {"a", "b"}
  {
    forall n ensures W.staged + [n] in Leftover() <==> n in {"a", "b"} {
      Apart(W.staged + [n]);
      assert (W.staged + [n])[1] == n && OLD_A[1] == "a" && OLD_B[1] == "b";
      assert W.staged + [n] == OLD_A <==> n == "a";
      assert W.staged + [n] == OLD_B <==> n == "b";
    }
    NamesAre(Leftover(), W.staged, {"a", "b"});
  }

  lemma CopyingFiles(e: Conditions, fs: Fs)
    requires fs == Leftover()
    ensures CopyList(fs, W.staged, W.root, ["a", "b"], e, 4) == Copied(Rolled(), 0, true, true)
  {
    assert W.staged + ["a"] == OLD_A && W.root + ["a"] == SITE_A && W.staged + ["b"] == OLD_B
           && W.root + ["b"] == SITE_B;
    LinkLeads(fs);
    var one := CopyNode(fs, OLD_A, SITE_A, e, 4);
    assert one == Copied(fs[SITE_B := File("A", AGENT, PLAIN)], 2, true, true);
    var two := CopyNode(one.fs, OLD_B, SITE_B, e, 2);
    assert two == Copied(Rolled(), 0, true, false);
    assert ["a", "b"][1..] == ["b"] && ["b"][1..] == [];
    assert CopyList(two.fs, W.staged, W.root, [], e, 0) == Copied(two.fs, 0, true, false);
    assert CopyList(one.fs, W.staged, W.root, ["b"], e, 2) == Copied(Rolled(), 0, true, false);
  }

  lemma LinkLeads(fs: Fs)
    requires fs == Leftover()
    ensures FileTarget(fs, SITE_A) == At(SITE_B, MAX_LINK_HOPS - 1)
  {
    assert Parent(SITE_B) == ["site"] && Parent(["site"]) == [];
    assert Locate(fs, [], MAX_LINK_HOPS - 1) == At([], MAX_LINK_HOPS - 1);
    assert [] + ["site"] == ["site"] && ["site"] + ["b"] == SITE_B;
    assert Locate(fs, ["site"], MAX_LINK_HOPS - 1) == At(["site"], MAX_LINK_HOPS - 1);
    assert Locate(fs, SITE_B, MAX_LINK_HOPS - 1) == At(SITE_B, MAX_LINK_HOPS - 1);
  }

  /** The archive is what sanitizing would leave. */
  lemma AlreadySafe()
    ensures Prepared(Before(), W, Known(AGENT)) == Before()
  {
    var t := Subtree(Before(), W.extracted);
    forall r | r in t ensures SafeNode(t[r], AGENT) == t[r] && !t[r].Special? {
      SubtreeAt(Before(), W.extracted, r);
    }
    assert Sanitized(t, AGENT) == t;
    IsGraft(Before(), Before(), W.extracted, t);
  }

  function Faults(): SwapFaults {
    SwapFaults({}, MoveFaults(true, 0, 0, {}), MoveFaults(false, 3, 0, {W.extracted}), {SITE_A},
               MoveFaults(false, 6, 0, {}), {}, {})
  }

  lemma MoveByCopy(fs: Fs, src: Path, dst: Path, ls: Listing, m: MoveFaults, c: Copied, left: Fs)
    requires !m.renames && CopyOf(fs, src, dst, ls, m) == c && c.ok && Cleared(c.fs, src, m.stuck) == left
    ensures Move(fs, src, dst, ls, m) == Moved(left, if src in left then RemovalFailed else Done, c.through)
  {
  }

  lemma RunOf(fs: Fs, w: Places, ls: Listing, x: SwapFaults, s: Moved, i: Moved, b: Moved)
    requires Exists(fs, w.root) && Staging(fs, w, ls, x) == s && s.end.Done?
    requires Installing(s.fs, w, ls, x) == i && !i.end.Done? && RollingBack(i.fs, w, ls, x) == b && b.end.Done?
    ensures Swap(fs, w, ls, x).fs == b.fs && Swap(fs, w, ls, x).res == InstallFailed
  {
  }

  lemma StagingRun(ls: Listing)
    ensures Staging(Before(), W, ls, Faults()) == Moved(SiteAside(), Done, false)
  {
    BeforeIsWellFormed();
    Apart(W.staged);
    ClearedAbsent(Before(), W.staged, {});
    Renaming();
  }

  lemma InstallRun(ls: Listing)
    requires ListsInOrder(ls)
    ensures Installing(SiteAside(), W, ls, Faults()) == Moved(Leftover(), RemovalFailed, false)
  {
    Copying(ls);
    ArchiveLeft();
    MoveByCopy(SiteAside(), W.extracted, W.root, ls, Faults().install, Copied(ArchiveCopied(), 0, true, false),
               Leftover());
  }

  lemma RollbackRun(ls: Listing)
    requires ListsInOrder(ls)
    ensures RollingBack(Leftover(), W, ls, Faults()) == Moved(After(), Done, true)
  {
    assert W.root + ["a"] == SITE_A;
    LinkLeft();
    CopyingBack(ls);
    AsideGone();
    Apart(W.staged);
    MoveByCopy(Leftover(), W.staged, W.root, ls, Faults().rollback, Copied(Rolled(), 0, true, true), After());
  }

  lemma HeldNowhere(p: Path)
    ensures !HoldsSomewhere(Cleared(After(), p, {}), "A")
  {
    forall q | q in After() && After()[q].File? ensures After()[q].content != "A" {
      assert q == SITE_B;
    }
  }

  /** From the request on: the site is renamed aside, the archive is copied into place and
      not quite removed, the link survives the clearing, the site is copied back and
      removed. The outcome is that of a completed rollback; what a held is nowhere. */
  lemma RequestLosesAFile(ls: Listing)
    requires ListsInOrder(ls)
    ensures CanRestore(Before(), W) && HoldsSomewhere(Before(), "A")
    ensures Request(Before(), ["tmp"], W, Known(AGENT), ls, Faults()).res == InstallFailed
    ensures !HoldsSomewhere(Request(Before(), ["tmp"], W, Known(AGENT), ls, Faults()).fs, "A")
  {
    BeforeIsWellFormed();
    HeldAtFirst();
    RequestRun(ls);
    HeldNowhere(["tmp"]);
  }

  lemma HeldAtFirst()
    ensures HoldsSomewhere(Before(), "A")
  {
    assert SITE_A in Before();
  }

  lemma RequestRun(ls: Listing)
    requires ListsInOrder(ls)
    ensures var o := Request(Before(), ["tmp"], W, Known(AGENT), ls, Faults());
            o.res == InstallFailed && o.fs == Cleared(After(), ["tmp"], {})
  {
    AlreadySafe();
    TheRun(ls);
  }

  lemma TheRun(ls: Listing)
    requires ListsInOrder(ls)
    ensures Swap(Before(), W, ls, Faults()).fs == After() && Swap(Before(), W, ls, Faults()).res == InstallFailed
  {
    BeforeIsWellFormed();
    RootSeen(Before(), W);
    StagingRun(ls);
    InstallRun(ls);
    RollbackRun(ls);
    RunOf(Before(), W, ls, Faults(), Moved(SiteAside(), Done, false), Moved(Leftover(), RemovalFailed, false),
          Moved(After(), Done, true));
  }
}
