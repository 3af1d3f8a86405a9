/** A copy of a place that no name and no link leads back to: it leaves that place as it
    is, and two calls for each node are enough for it, if any number is. */
module CopySpares {
  import opened FileTree
  import opened CopyTree
  import opened DiskState
  import opened CopyRun
  import opened CopyCompletes

  /** No link on the disk and no path below top has the name of top in it. */
  ghost predicate Unnamed(fs: Fs, top: Path)
    requires top != []
  {
    var name := top[|top| - 1];
    && (forall q :: q in fs && fs[q].Link? ==> name !in fs[q].target)
    && (forall q :: q in fs && top <= q ==> name !in q[|top|..])
  }

  lemma {:induction false} LocateAvoids(fs: Fs, top: Path, p: Path, hops: nat)
    requires top != [] && Unnamed(fs, top) && top[|top| - 1] !in p
    ensures Locate(fs, p, hops).At? ==> !(top <= Locate(fs, p, hops).path)
    decreases hops, |p|
  {
    if p != [] {
      LocateAvoids(fs, top, Parent(p), hops);
      var up := Locate(fs, Parent(p), hops);
      if up.At? {
        var q := up.path + [p[|p| - 1]];
        NotInto(top, up.path, p[|p| - 1]);
        if q in fs && fs[q].Link? && up.left > 0 { LocateAvoids(fs, top, fs[q].target, up.left - 1); }
      }
    }
  }

  lemma NotInto(top: Path, p: Path, n: string)
    requires top != [] && !(top <= p) && n != top[|top| - 1]
    ensures !(top <= p + [n])
  {
  }

  lemma TargetsAvoid(fs: Fs, top: Path, dst: Path)
    requires top != [] && Unnamed(fs, top) && !(top <= dst)
    ensures OpenTarget(fs, dst).At? ==> !(top <= OpenTarget(fs, dst).path)
  {
    if dst in fs && fs[dst].Link? { LocateAvoids(fs, top, fs[dst].target, MAX_LINK_HOPS - 1); }
  }

  lemma ChildAvoids(fs: Fs, top: Path, src: Path, dst: Path, n: string)
    requires top != [] && Unnamed(fs, top) && top <= src && !(top <= dst) && src + [n] in fs
    ensures !(top <= dst + [n])
  {
    assert (src + [n])[|top|..][|src| - |top|] == n;
    NotInto(top, dst, n);
  }

  /** The place is untouched, and still unnamed. */
  ghost predicate Spared(a: Fs, b: Fs, top: Path)
    requires top != []
  {
    Unnamed(b, top) && forall q :: top <= q ==> (q in a <==> q in b) && (q in a ==> a[q] == b[q])
  }

  lemma {:induction false} CopySparesSource(fs: Fs, top: Path, src: Path, dst: Path, e: Conditions, steps: nat)
    requires top != [] && Unnamed(fs, top) && top <= src && !(top <= dst) && Lists(e.ls)
    ensures Spared(fs, CopyNode(fs, src, dst, e, steps).fs, top)
    decreases steps, 0
  {
    if steps > 0 && src in fs {
      TargetsAvoid(fs, top, dst);
      match fs[src] {
        case Link(_, _) =>
        case Special(_, _) =>
        case File(_, _, _) =>
        case Dir(_, mode) =>
          var at := MkdirTarget(fs, dst);
          if at.At? {
            var made := Made(fs, dst, at, mode);
            assert Spared(fs, made, top);
            var names := e.ls(ChildNames(made, src));
            ListedChildren(made, src, names);
            if steps > 1 { ListSparesSource(made, top, src, at.path, names, e, steps - 2); }
          }
      }
    }
  }

  lemma ListedChildren(fs: Fs, src: Path, names: seq<string>)
    requires forall n :: n in names <==> n in ChildNames(fs, src)
    ensures forall i :: 0 <= i < |names| ==> src + [names[i]] in fs
  {
    forall i | 0 <= i < |names| ensures src + [names[i]] in fs {
      assert names[i] in names;
      ChildNamed(fs, src, names[i]);
    }
  }

  lemma {:induction false} ListSparesSource(fs: Fs, top: Path, src: Path, dst: Path, names: seq<string>, e: Conditions,
                                            steps: nat)
    requires top != [] && Unnamed(fs, top) && top <= src && !(top <= dst) && Lists(e.ls)
    requires forall i :: 0 <= i < |names| ==> src + [names[i]] in fs
    ensures Spared(fs, CopyList(fs, src, dst, names, e, steps).fs, top)
    decreases steps, |names| + 1
  {
    if names != [] {
      var n := names[0];
      ChildAvoids(fs, top, src, dst, n);
      CopySparesSource(fs, top, src + [n], dst + [n], e, steps);
      var one := CopyNode(fs, src + [n], dst + [n], e, steps);
      if one.ok {
        forall i | 0 <= i < |names[1..]| ensures src + [names[1..][i]] in one.fs {
          assert src + [names[i + 1]] in fs && top <= src + [names[i + 1]];
        }
        ListSparesSource(one.fs, top, src, dst, names[1..], e, one.left);
      }
    }
  }

  // ---- How many calls are enough ---------------------------------------------------------

  /** What lies below one of the entries. */
  function Below(fs: Fs, p: Path, names: seq<string>): set<Path> {
    set q | q in fs && |p| < |q| && p <= q && q[|p|] in names
  }

  lemma BelowFirst(fs: Fs, p: Path, names: seq<string>)
    requires Distinct(names) && names != []
    ensures |Below(fs, p, names)| == |Under(fs, p + [names[0]])| + |Below(fs, p, names[1..])|
  {
    var n := names[0];
    var a, b, all := Under(fs, p + [n]), Below(fs, p, names[1..]), Below(fs, p, names);
    assert n !in names[1..];
    forall q ensures q in all <==> q in a || q in b {
      if q in a { assert q[|p|] == (p + [n])[|p|] && p <= p + [n] <= q; }
      if q in all && q !in b { assert q[|p|] == n && q[..|p| + 1] == p + [n]; }
      assert names == [n] + names[1..];
    }
    assert all == a + b && a !! b;
  }

  lemma BelowTop(fs: Fs, p: Path, names: seq<string>)
    requires p in fs
    ensures |Below(fs, p, names)| + 1 <= |Under(fs, p)|
  {
    Smaller(Below(fs, p, names) + {p}, Under(fs, p));
  }

  lemma {:induction false} Smaller(a: set<Path>, b: set<Path>)
    requires a <= b
    ensures |a| <= |b|
  {
    assert |b| == |a| + |b - a| by { assert b == a + (b - a); }
  }

  lemma SparedUnder(a: Fs, b: Fs, top: Path, p: Path, names: seq<string>)
    requires top != [] && Spared(a, b, top) && top <= p
    ensures Under(a, p) == Under(b, p) && Below(a, p, names) == Below(b, p, names)
  {
    forall q | p <= q ensures q in a <==> q in b { }
  }

  /** A copy that completes makes no more than two calls for each node. */
  lemma {:induction false} CallsUsed(fs: Fs, top: Path, src: Path, dst: Path, e: Conditions, steps: nat)
    requires top != [] && Unnamed(fs, top) && top <= src && !(top <= dst) && Lists(e.ls)
    requires CopyNode(fs, src, dst, e, steps).ok
    ensures steps - CopyNode(fs, src, dst, e, steps).left <= 2 * |Under(fs, src)|
    decreases steps, 0
  {
    BelowTop(fs, src, []);
    TargetsAvoid(fs, top, dst);
    if fs[src].Dir? {
      var at := MkdirTarget(fs, dst);
      var made := Made(fs, dst, at, fs[src].mode);
      assert Spared(fs, made, top);
      var names := e.ls(ChildNames(made, src));
      ListedChildren(made, src, names);
      ListCallsUsed(made, top, src, at.path, names, e, steps - 2);
      SparedUnder(fs, made, top, src, names);
      BelowTop(made, src, names);
    }
  }

  lemma {:induction false} ListCallsUsed(fs: Fs, top: Path, src: Path, dst: Path, names: seq<string>, e: Conditions,
                                         steps: nat)
    requires top != [] && Unnamed(fs, top) && top <= src && !(top <= dst) && Lists(e.ls) && Distinct(names)
    requires forall i :: 0 <= i < |names| ==> src + [names[i]] in fs
    requires CopyList(fs, src, dst, names, e, steps).ok
    ensures steps - CopyList(fs, src, dst, names, e, steps).left <= 2 * |Below(fs, src, names)|
    decreases steps, |names| + 1
  {
    if names != [] {
      var n, rest := names[0], names[1..];
      ChildAvoids(fs, top, src, dst, n);
      CallsUsed(fs, top, src + [n], dst + [n], e, steps);
      CopySparesSource(fs, top, src + [n], dst + [n], e, steps);
      var one := CopyNode(fs, src + [n], dst + [n], e, steps);
      forall i | 0 <= i < |rest| ensures src + [rest[i]] in one.fs {
        assert src + [names[i + 1]] in fs && top <= src + [names[i + 1]];
      }
      ListCallsUsed(one.fs, top, src, dst, rest, e, one.left);
      SparedUnder(fs, one.fs, top, src, rest);
      BelowFirst(fs, src, names);
    }
  }

  /** A copy that completes does so with exactly the calls it made, and no write of it
      was cut. */
  lemma {:induction false} ExactCalls(fs: Fs, src: Path, dst: Path, e: Conditions, f: Conditions, steps: nat)
    requires CopyNode(fs, src, dst, e, steps).ok && e.ls == f.ls
    ensures var c := CopyNode(fs, src, dst, e, steps); CopyNode(fs, src, dst, f, steps - c.left) == c.(left := 0)
    decreases steps, 0
  {
    if fs[src].Dir? {
      var at := MkdirTarget(fs, dst);
      var made := Made(fs, dst, at, fs[src].mode);
      ListExactCalls(made, src, at.path, e.ls(ChildNames(made, src)), e, f, steps - 2);
    }
  }

  lemma {:induction false} ListExactCalls(fs: Fs, src: Path, dst: Path, names: seq<string>, e: Conditions,
                                          f: Conditions, steps: nat)
    requires CopyList(fs, src, dst, names, e, steps).ok && e.ls == f.ls
    ensures var c := CopyList(fs, src, dst, names, e, steps);
            CopyList(fs, src, dst, names, f, steps - c.left) == c.(left := 0)
    decreases steps, |names| + 1
  {
    if names != [] {
      var n := names[0];
      var one := CopyNode(fs, src + [n], dst + [n], e, steps);
      var c := CopyList(one.fs, src, dst, names[1..], e, one.left);
      ExactCalls(fs, src + [n], dst + [n], e, f, steps);
      MoreSteps(fs, src + [n], dst + [n], f, steps - one.left, one.left - c.left);
      ListExactCalls(one.fs, src, dst, names[1..], e, f, one.left);
    }
  }

  /** Two calls for each node are enough, if any number is. */
  lemma EnoughCalls(fs: Fs, src: Path, dst: Path, e: Conditions, f: Conditions, steps: nat)
    requires src != [] && Unnamed(fs, src) && !(src <= dst) && Lists(e.ls) && e.ls == f.ls
    requires CopyNode(fs, src, dst, e, steps).ok
    ensures var c, d := CopyNode(fs, src, dst, e, steps), CopyNode(fs, src, dst, f, 2 * |Under(fs, src)|);
            d.ok && d.through == c.through && d.fs == c.fs
  {
    var c := CopyNode(fs, src, dst, e, steps);
    CallsUsed(fs, src, src, dst, e, steps);
    ExactCalls(fs, src, dst, e, f, steps);
    MoreSteps(fs, src, dst, f, steps - c.left, 2 * |Under(fs, src)| - (steps - c.left));
  }
}
