/** safePath and ensureNoSymlinkEscape: keeping file-manager paths inside the
    site root, first by their text and then by what they resolve to. */
module SafePath {
  import opened Strings
  import opened CleanPath

  /** filepath.EvalSymlinks of one path. */
  datatype Resolution = Resolved(path: string) | NotExist | Failed

  datatype Result = Allowed(full: string) | NotConfigured | InvalidPath | Traversal | RootNotAccessible

  /** The path as the user meant it: trimmed, and "." if nothing is left. */
  function Cleaned(rel: string): string {
    var t := TrimSpace(rel);
    Clean(if t == "" then "." else t)
  }

  /** The first test of safePath. */
  predicate LooksOutside(c: string) {
    c == ".." || ".." <= c || "/" <= c
  }

  /** The second test, for the joined path. */
  predicate LeavesRoot(cleanRoot: string, full: string) {
    full != cleanRoot && !(cleanRoot + "/" <= full)
  }

  /** Trimming takes the white space at both ends, and all of it. */
  lemma Trimmed(s: string) returns (front: string, back: string)
    ensures s == front + TrimSpace(s) + back
    ensures forall c :: c in front + back ==> IsSpace(c)
    ensures var t := TrimSpace(s); t != "" ==> !IsSpace(t[0]) && !IsSpace(t[|t| - 1])
  {
    front := TrimmedLeft(s);
    back := TrimmedRight(TrimLeft(s));
    var l, t := TrimLeft(s), TrimSpace(s);
    assert s == front + (t + back) == front + t + back;
    if t != "" { assert t[0] == l[0]; }
  }

  lemma {:induction false} TrimmedLeft(s: string) returns (front: string)
    ensures s == front + TrimLeft(s) && (forall c :: c in front ==> IsSpace(c))
    ensures TrimLeft(s) != "" ==> !IsSpace(TrimLeft(s)[0])
    decreases |s|
  {
    front := "";
    if s != "" && IsSpace(s[0]) {
      var f := TrimmedLeft(s[1..]);
      front := [s[0]] + f;
      assert s == [s[0]] + s[1..];
    }
  }

  lemma {:induction false} TrimmedRight(s: string) returns (back: string)
    ensures s == TrimRight(s) + back && (forall c :: c in back ==> IsSpace(c))
    ensures TrimRight(s) != "" ==> !IsSpace(TrimRight(s)[|TrimRight(s)| - 1])
    decreases |s|
  {
    back := "";
    if s != "" && IsSpace(s[|s| - 1]) {
      var b := TrimmedRight(s[..|s| - 1]);
      back := b + [s[|s| - 1]];
      assert s == s[..|s| - 1] + [s[|s| - 1]];
    }
  }

  /** Text in the middle, between slashes, is out of reach of the trimming. */
  lemma TrimAround(x: string, m: string, y: string)
    requires m != "" && m[0] == '/' && m[|m| - 1] == '/'
    ensures TrimSpace(x + m + y) == TrimLeft(x) + m + TrimRight(y)
  {
    TrimLeftOf(x, m + y);
    TrimRightOf(TrimLeft(x) + m, y);
    Chained(x, m, y);
    Chained(TrimLeft(x), m, y);
  }

  lemma Chained(a: string, b: string, c: string)
    ensures a + b + c == a + (b + c)
  {
  }

  lemma {:induction false} TrimLeftOf(x: string, rest: string)
    requires rest != "" && !IsSpace(rest[0])
    ensures TrimLeft(x + rest) == TrimLeft(x) + rest
    decreases |x|
  {
    if x == "" {
      assert x + rest == rest;
    } else {
      assert (x + rest)[1..] == x[1..] + rest;
      TrimLeftOf(x[1..], rest);
    }
  }

  lemma {:induction false} TrimRightOf(rest: string, y: string)
    requires rest != "" && !IsSpace(rest[|rest| - 1])
    ensures TrimRight(rest + y) == rest + TrimRight(y)
    decreases |y|
  {
    if y == "" {
      assert rest + y == rest;
    } else {
      assert (rest + y)[..|rest + y| - 1] == rest + y[..|y| - 1];
      TrimRightOf(rest, y[..|y| - 1]);
    }
  }

  /** What the user wrote as x/c/../y is taken as x/y. */
  lemma NameUpIsIgnored(x: string, c: string, y: string)
    requires IsName(c)
    ensures Cleaned(x + "/" + c + "/../" + y) == Cleaned(x + "/" + y)
  {
    var m := "/" + c + "/../";
    TrimAround(x, m, y);
    TrimAround(x, "/", y);
    Around(x, c, y);
    Around(TrimLeft(x), c, TrimRight(y));
    NameUpCancels(TrimLeft(x), c, TrimRight(y));
  }

  lemma Around(x: string, c: string, y: string)
    ensures x + "/" + c + "/../" + y == x + ("/" + c + "/../") + y
  {
  }

  lemma CleanedIsClean(rel: string)
    ensures var c := Cleaned(rel);
            c != "" && Clean(c) == c && Parts(c) == Parts(if TrimSpace(rel) == "" then "." else TrimSpace(rel))
  {
    var t := if TrimSpace(rel) == "" then "." else TrimSpace(rel);
    CleanIdempotent(t);
    PartsNormal(t);
    RenderNonEmpty(IsRooted(t), Parts(t));
  }

  lemma RenderNonEmpty(rooted: bool, cs: seq<string>)
    requires Normal(rooted, cs)
    ensures Render(rooted, cs) != ""
  {
    if cs != [] { NormalHasNoSlash(rooted, cs); JoinStarts(cs); }
  }

  /** A clean path that passes the first test has plain names only. */
  lemma PassedHasNames(c: string)
    requires Clean(c) == c && c != "" && !LooksOutside(c)
    ensures !IsRooted(c) && (forall i :: 0 <= i < |Parts(c)| ==> IsName(Parts(c)[i]))
  {
    var cs := Parts(c);
    PartsNormal(c);
    assert "/" <= c <==> IsRooted(c);
    forall i | 0 <= i < |cs| ensures IsName(cs[i]) {
      if cs[i] == ".." {
        assert cs[0] == "..";
        JoinStarts(cs);
      }
    }
  }

  /** Lexical containment: for every root and every path that passes the first
      test, the joined path is the root's components followed by the path's, all of
      them names. */
  lemma JoinedBelowRoot(root: string, rel: string)
    requires root != "" && !LooksOutside(Cleaned(rel))
    ensures var c := Cleaned(rel);
            && IsRooted(Join(root, c)) == IsRooted(root)
            && Parts(Join(root, c)) == Parts(root) + Parts(c)
            && (forall i :: 0 <= i < |Parts(c)| ==> IsName(Parts(c)[i]))
            && Join(root, c) == Render(IsRooted(root), Parts(root) + Parts(c))
  {
    var c := Cleaned(rel);
    CleanedIsClean(rel);
    PassedHasNames(c);
    JoinNames(root, c);
    CleanIdempotent(root + "/" + c);
  }

  /** What the first test refuses: rooted paths, and paths whose first name begins
      with two dots, which includes harmless names such as "..a". */
  lemma LooksOutsideIff(rel: string)
    ensures var c := Cleaned(rel);
            LooksOutside(c) <==> IsRooted(c) || (Parts(c) != [] && ".." <= Parts(c)[0])
  {
    var c := Cleaned(rel);
    CleanedIsClean(rel);
    PartsNormal(c);
    assert "/" <= c <==> IsRooted(c);
    var cs := Parts(c);
    if !IsRooted(c) && cs != [] {
      NormalHasNoSlash(false, cs);
      JoinStarts(cs);
      FirstDots(cs);
    }
  }

  lemma FirstDots(cs: seq<string>)
    requires cs != [] && '/' !in cs[0] && cs[0] != ""
    ensures ".." <= JoinWith(cs, '/') <==> ".." <= cs[0]
  {
    JoinStarts(cs);
    var s := JoinWith(cs, '/');
    if |cs| > 1 {
      assert s == cs[0] + "/" + JoinWith(cs[1..], '/');
      if |cs[0]| == 1 { assert s[1] == '/'; }
    }
  }

  /** The second test is dead code, except for a root that cleans to "/" or "."; and
      for those it refuses everything but the root itself. */
  lemma SecondTestIff(root: string, rel: string)
    requires root != "" && !LooksOutside(Cleaned(rel))
    ensures LeavesRoot(Clean(root), Join(root, Cleaned(rel))) <==> Parts(root) == [] && Parts(Cleaned(rel)) != []
    ensures Parts(root) == [] <==> Clean(root) == "/" || Clean(root) == "."
  {
    var c := Cleaned(rel);
    JoinedBelowRoot(root, rel);
    PartsNormal(root);
    var a, n, rooted := Parts(root), Parts(c), IsRooted(root);
    var r, full := Render(rooted, a), Render(rooted, a + n);
    PartsOfRender(rooted, a);
    CleanOfBare(root);
    if n == [] {
      assert a + n == a;
    } else {
      assert a + n != a;
      PartsNormal(root + "/" + c);
      CleanIdempotent(root + "/" + c);
      PartsOfRender(rooted, a + n);
      if a == [] { NotBelowBare(rooted, n); assert a + n == n; } else { BelowIsPrefix(rooted, a, n); }
    }
  }

  lemma CleanOfBare(root: string)
    ensures Parts(root) == [] <==> Clean(root) == "/" || Clean(root) == "."
  {
    PartsNormal(root);
    PartsOfRender(IsRooted(root), Parts(root));
    PartsOfRender(true, []);
    PartsOfRender(false, []);
    assert Render(true, []) == "/" && Render(false, []) == ".";
  }

  lemma NotBelowBare(rooted: bool, n: seq<string>)
    requires n != [] && forall i :: 0 <= i < |n| ==> IsName(n[i])
    ensures !(Render(rooted, []) + "/" <= Render(rooted, n))
  {
    JoinStarts(n);
    var s := Render(rooted, n);
    if rooted {
      assert s[1] == n[0][0] && n[0][0] in n[0];
      assert ("/" + "/")[1] == '/';
    } else if s[0] == '.' {
      assert s[0] == n[0][0];
      assert n[0] == "." <==> |n[0]| == 1;
      assert s[1] == n[0][1] && n[0][1] in n[0];
      assert ("." + "/")[1] == '/';
    }
  }

  lemma BelowIsPrefix(rooted: bool, a: seq<string>, n: seq<string>)
    requires a != [] && n != []
    ensures Render(rooted, a) + "/" <= Render(rooted, a + n)
  {
    JoinAppend(a, n, '/');
  }

  // ---- The symlink walk -------------------------------------------------------

  predicate Inside(realRoot: string, path: string) {
    path == realRoot || realRoot + "/" <= path
  }

  /** On clean absolute paths the test means: the same place or below; but below
      the bare root nothing is recognized. */
  lemma InsideIff(a: seq<string>, b: seq<string>)
    requires Normal(true, a) && Normal(true, b)
    ensures Inside(Render(true, a), Render(true, b)) <==> a == b || (a != [] && a < b)
  {
    PrefixIsComponentPrefix(a, b);
    RenderInjective(a, b);
  }

  /** The probe of ensureNoSymlinkEscape that has k components. */
  function Probe(full: seq<string>, k: nat): string
    requires k <= |full|
  {
    Render(true, full[..k])
  }

  /** k is the deepest ancestor-or-self of full that resolves, and nothing below it
      exists. */
  ghost predicate DeepestExisting(resolve: string -> Resolution, full: seq<string>, k: nat) {
    && k <= |full| && resolve(Probe(full, k)).Resolved?
    && forall m: nat :: k < m <= |full| ==> resolve(Probe(full, m)).NotExist?
  }

  /** The answer the walk gives: `stop` is the first of the probes, from the path upwards,
      that is not simply absent, and what it resolves to decides. */
  ghost predicate Judged(resolve: string -> Resolution, root: string, rc: seq<string>, fc: seq<string>, r: Result,
                         stop: nat) {
    if !resolve(root).Resolved? then r.RootNotAccessible?
    else
      && |rc| <= stop <= |fc| && !resolve(Probe(fc, stop)).NotExist?
      && (forall m: nat :: stop < m <= |fc| ==> resolve(Probe(fc, m)).NotExist?)
      && match resolve(Probe(fc, stop))
         case Resolved(path) => r == if Inside(resolve(root).path, path) then Allowed(Render(true, fc)) else Traversal
         case _ => r.InvalidPath?
  }

  /** The next probe is another one. */
  lemma OneUp(full: seq<string>, k: nat)
    requires Normal(true, full) && 0 < k <= |full|
    ensures DirOf(Probe(full, k)) == Probe(full, k - 1) != Probe(full, k)
  {
    DirOfRender(full[..k]);
    assert full[..k][..k - 1] == full[..k - 1];
    RenderInjective(full[..k], full[..k - 1]);
  }

  /** Walks up from full until something resolves. `stop` is where it ended: never
      above the root, so the walk always ends before "/" could be its own parent. */
  method EnsureNoSymlinkEscape(resolve: string -> Resolution, root: string, full: string, ghost rc: seq<string>,
                               ghost fc: seq<string>)
    returns (r: Result, ghost stop: nat)
    requires Normal(true, fc) && rc <= fc && root == Render(true, rc) && full == Render(true, fc)
    ensures r.RootNotAccessible? <==> !resolve(root).Resolved?
    ensures !r.NotConfigured? && (r.Allowed? ==> r.full == full)
    ensures Judged(resolve, root, rc, fc, r, stop)
    ensures r.Allowed? <==>
      resolve(root).Resolved? && DeepestExisting(resolve, fc, stop)
        && Inside(resolve(root).path, resolve(Probe(fc, stop)).path)
    ensures resolve(root).Resolved? && (forall m: nat :: |rc| <= m <= |fc| ==> !resolve(Probe(fc, m)).Failed?) ==>
      DeepestExisting(resolve, fc, stop)
  {
    stop := |fc|;
    var realRoot := resolve(root);
    if !realRoot.Resolved? { return RootNotAccessible, stop; }
    var probe := full;
    assert fc[..|fc|] == fc && fc[..|rc|] == rc;
    while true
      invariant |rc| <= stop <= |fc| && probe == Probe(fc, stop)
      invariant forall m: nat :: stop < m <= |fc| ==> resolve(Probe(fc, m)).NotExist?
      decreases stop
    {
      var resolved := resolve(probe);
      if resolved.Resolved? {
        if !Inside(realRoot.path, resolved.path) { return Traversal, stop; }
        return Allowed(full), stop;
      }
      if !resolved.NotExist? { return InvalidPath, stop; }
      assert stop > |rc|;
      OneUp(fc, stop);
      var parent := DirOf(probe);
      if parent == probe {
        assert false;
        return InvalidPath, stop;
      }
      probe := parent;
      stop := stop - 1;
    }
  }

  /** The path lies past both textual tests. */
  predicate PassesText(root: string, rel: string) {
    root != "" && !LooksOutside(Cleaned(rel)) && (Parts(root) != [] || Parts(Cleaned(rel)) == [])
  }

  /** The answer to every input, where `stop` is where the symlink walk ends. */
  ghost predicate Verdict(resolve: string -> Resolution, root: string, rel: string, r: Result, stop: nat) {
    && (root == "" <==> r.NotConfigured?)
    && (root != "" && LooksOutside(Cleaned(rel)) ==> r.InvalidPath?)
    && (root != "" && !LooksOutside(Cleaned(rel)) && !PassesText(root, rel) ==> r.Traversal?)
    && (PassesText(root, rel) ==>
          && Normal(true, Parts(root) + Parts(Cleaned(rel)))
          && Judged(resolve, Clean(root), Parts(root), Parts(root) + Parts(Cleaned(rel)), r, stop))
  }

  /** There is one answer, and it depends on the cleaned path only. */
  lemma OneVerdict(resolve: string -> Resolution, root: string, rel: string, rel': string, r: Result, stop: nat,
                   r': Result, stop': nat)
    requires Cleaned(rel) == Cleaned(rel')
    requires Verdict(resolve, root, rel, r, stop) && Verdict(resolve, root, rel', r', stop')
    ensures r == r'
  {
    if PassesText(root, rel) && resolve(Clean(root)).Resolved? { assert stop == stop'; }
  }

  /** x/c/../y gets the answer of x/y, whatever c is and whether it exists. */
  lemma NameUpSameVerdict(resolve: string -> Resolution, root: string, x: string, c: string, y: string, r: Result,
                          stop: nat, r': Result, stop': nat)
    requires IsName(c) && Verdict(resolve, root, x + "/" + c + "/../" + y, r, stop)
    requires Verdict(resolve, root, x + "/" + y, r', stop')
    ensures r == r'
  {
    NameUpIsIgnored(x, c, y);
    OneVerdict(resolve, root, x + "/" + c + "/../" + y, x + "/" + y, r, stop, r', stop');
  }

  /** safePath on an absolute site root. */
  method SafePath(resolve: string -> Resolution, root: string, rel: string) returns (r: Result, ghost stop: nat)
    requires root == "" || IsRooted(root)
    ensures root == "" <==> r.NotConfigured?
    ensures Verdict(resolve, root, rel, r, stop)
    ensures r.Allowed? <==>
      && PassesText(root, rel) && resolve(Clean(root)).Resolved?
      && var fc := Parts(root) + Parts(Cleaned(rel));
      DeepestExisting(resolve, fc, stop) && Inside(resolve(Clean(root)).path, resolve(Probe(fc, stop)).path)
  {
    stop := 0;
    if root == "" { return NotConfigured, stop; }
    var c := Cleaned(rel);
    if LooksOutside(c) { return InvalidPath, stop; }
    CleanedIsClean(rel);
    JoinedBelowRoot(root, rel);
    SecondTestIff(root, rel);
    var full := Join(root, c);
    var cleanRoot := Clean(root);
    if LeavesRoot(cleanRoot, full) { return Traversal, stop; }
    PartsNormal(root);
    PartsNormal(root + "/" + c);
    CleanIdempotent(root + "/" + c);
    r, stop := EnsureNoSymlinkEscape(resolve, cleanRoot, full, Parts(root), Parts(root) + Parts(c));
  }
}
