/** What a copy's success depends on: the kinds and link targets of the nodes on the
    disk, and of the data only what is copied itself. */
module CopyAlike {
  import opened FileTree
  import opened CopyTree
  import opened DiskState
  import opened CopyRun

  ghost predicate AlikeAt(a: Fs, b: Fs, top: Path, q: Path) {
    && (q in a <==> q in b)
    && (q in a ==> SameShape(a[q], b[q]) && (top <= q ==> SameData(a[q], b[q])))
  }

  /** The same paths with nodes of the same shape, and with the same data below top. */
  ghost predicate Alike(a: Fs, b: Fs, top: Path) {
    forall q :: AlikeAt(a, b, top, q)
  }

  /** Two copies that fare alike and leave disks that are alike. */
  ghost predicate AlikeRuns(r: Copied, s: Copied, top: Path) {
    r.left == s.left && r.ok == s.ok && r.through == s.through && Alike(r.fs, s.fs, top)
  }

  lemma {:induction false} LocateAlike(a: Fs, b: Fs, top: Path, p: Path, hops: nat)
    requires Alike(a, b, top)
    ensures Locate(a, p, hops) == Locate(b, p, hops)
    decreases hops, |p|
  {
    if p != [] {
      LocateAlike(a, b, top, Parent(p), hops);
      var up := Locate(a, Parent(p), hops);
      if up.At? {
        var q := up.path + [p[|p| - 1]];
        assert AlikeAt(a, b, top, up.path) && AlikeAt(a, b, top, q);
        if q in a && a[q].Link? && up.left > 0 { LocateAlike(a, b, top, a[q].target, up.left - 1); }
      }
    }
  }

  lemma TargetsAlike(a: Fs, b: Fs, top: Path, p: Path)
    requires Alike(a, b, top)
    ensures OpenTarget(a, p) == OpenTarget(b, p) && Behind(a, p) == Behind(b, p)
    ensures MkdirTarget(a, p) == MkdirTarget(b, p) && FileTarget(a, p) == FileTarget(b, p)
  {
    assert AlikeAt(a, b, top, p);
    if p in a && a[p].Link? { LocateAlike(a, b, top, a[p].target, MAX_LINK_HOPS - 1); }
    var at := OpenTarget(a, p);
    if at.At? { assert AlikeAt(a, b, top, at.path); }
  }

  lemma PutAlike(a: Fs, b: Fs, top: Path, p: Path, m: Node, n: Node)
    requires Alike(a, b, top) && SameShape(m, n) && SameData(m, n)
    ensures Alike(a[p := m], b[p := n], top)
  {
    var x, y := a[p := m], b[p := n];
    forall q ensures AlikeAt(x, y, top, q) {
      assert AlikeAt(a, b, top, q);
    }
  }

  lemma FileAlike(a: Fs, b: Fs, top: Path, src: Path, dst: Path, m: Mode, n: Mode, cut: nat, steps: nat)
    requires Alike(a, b, top) && top <= src && src in a && a[src].File? && src in b && b[src].File?
    ensures AlikeRuns(CopyFile(a, src, dst, m, cut, steps), CopyFile(b, src, dst, n, cut, steps), top)
  {
    TargetsAlike(a, b, top, dst);
    var at := FileTarget(a, dst);
    if at.At? {
      var x, y := Emptied(a, at.path, m), Emptied(b, at.path, n);
      assert AlikeAt(a, b, top, at.path);
      PutAlike(a, b, top, at.path, x[at.path], y[at.path]);
      assert AlikeAt(x, y, top, src);
      var s := x[src].content;
      PutAlike(x, y, top, at.path, x[at.path].(content := s), y[at.path].(content := s));
      PutAlike(x, y, top, at.path, x[at.path].(content := Upto(s, cut)), y[at.path].(content := Upto(s, cut)));
    }
  }

  lemma {:induction false} CopyAlikeRuns(a: Fs, b: Fs, top: Path, src: Path, dst: Path, e: Conditions, steps: nat)
    requires Alike(a, b, top) && top <= src
    ensures AlikeRuns(CopyNode(a, src, dst, e, steps), CopyNode(b, src, dst, e, steps), top)
    decreases steps, 0
  {
    assert AlikeAt(a, b, top, src);
    if steps > 0 && src in a {
      match a[src] {
        case Link(target, _) =>
          assert AlikeAt(a, b, top, dst);
          PutAlike(a, b, top, dst, Link(target, AGENT), Link(target, AGENT));
        case Special(_, _) =>
        case File(_, _, m) => FileAlike(a, b, top, src, dst, m, b[src].mode, e.cut, steps - 1);
        case Dir(_, m) =>
          TargetsAlike(a, b, top, dst);
          var at := MkdirTarget(a, dst);
          if at.At? {
            var x, y := Made(a, dst, at, m), Made(b, dst, at, b[src].mode);
            assert AlikeAt(a, b, top, at.path);
            PutAlike(a, b, top, dst, Dir(AGENT, PermOnly(m)), Dir(AGENT, PermOnly(b[src].mode)));
            NamesAlike(x, y, top, src);
            if steps > 1 { ListAlikeRuns(x, y, top, src, at.path, e.ls(ChildNames(x, src)), e, steps - 2); }
          }
      }
    }
  }

  lemma NamesAlike(a: Fs, b: Fs, top: Path, p: Path)
    requires Alike(a, b, top)
    ensures ChildNames(a, p) == ChildNames(b, p)
  {
    forall n ensures n in ChildNames(a, p) <==> n in ChildNames(b, p) {
      assert AlikeAt(a, b, top, p + [n]);
      ChildNamed(a, p, n);
      ChildNamed(b, p, n);
    }
  }

  lemma {:induction false} ListAlikeRuns(a: Fs, b: Fs, top: Path, src: Path, dst: Path, names: seq<string>,
                                         e: Conditions, steps: nat)
    requires Alike(a, b, top) && top <= src
    ensures AlikeRuns(CopyList(a, src, dst, names, e, steps), CopyList(b, src, dst, names, e, steps), top)
    decreases steps, |names| + 1
  {
    if names != [] {
      var n := names[0];
      CopyAlikeRuns(a, b, top, src + [n], dst + [n], e, steps);
      var r, s := CopyNode(a, src + [n], dst + [n], e, steps), CopyNode(b, src + [n], dst + [n], e, steps);
      if r.ok { ListAlikeRuns(r.fs, s.fs, top, src, dst, names[1..], e, r.left); }
    }
  }
}
