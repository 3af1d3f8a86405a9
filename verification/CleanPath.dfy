/** filepath.Clean, Join and Dir by their documented rules, on component lists:
    normal forms, and prefixes of strings against prefixes of component lists. */
module CleanPath {
  import opened Strings

  /** The component stack: "" and "." vanish, ".." pops a name, stays at the front
      of a relative path and vanishes at the root. */
  function Push(rooted: bool, stack: seq<string>, c: string): seq<string> {
    if c == "" || c == "." then stack
    else if c == ".." then
      if stack != [] && stack[|stack| - 1] != ".." then stack[..|stack| - 1]
      else if rooted then stack
      else stack + [c]
    else stack + [c]
  }

  function Reduce(rooted: bool, stack: seq<string>, parts: seq<string>): seq<string>
    decreases |parts|
  {
    if parts == [] then stack else Reduce(rooted, Push(rooted, stack, parts[0]), parts[1..])
  }

  predicate IsRooted(s: string) {
    s != "" && s[0] == '/'
  }

  /** The components of Clean(s). */
  function Parts(s: string): seq<string> {
    Reduce(IsRooted(s), [], Split(s, '/'))
  }

  function Render(rooted: bool, cs: seq<string>): string {
    if rooted then "/" + JoinWith(cs, '/') else if cs == [] then "." else JoinWith(cs, '/')
  }

  function Clean(s: string): string {
    Render(IsRooted(s), Parts(s))
  }

  /** filepath.Join of two elements; empty ones are left out. */
  function Join(a: string, b: string): string {
    if a == "" && b == "" then ""
    else if a == "" then Clean(b)
    else if b == "" then Clean(a)
    else Clean(a + "/" + b)
  }

  predicate IsName(c: string) {
    c != "" && c != "." && c != ".." && '/' !in c
  }

  /** Names only, but for a leading run of ".." in a relative path. */
  predicate Normal(rooted: bool, cs: seq<string>) {
    forall i :: 0 <= i < |cs| ==>
      IsName(cs[i]) || (!rooted && cs[i] == ".." && forall j :: 0 <= j < i ==> cs[j] == "..")
  }

  lemma {:induction false} ReduceNormal(rooted: bool, stack: seq<string>, parts: seq<string>)
    requires Normal(rooted, stack) && forall i :: 0 <= i < |parts| ==> '/' !in parts[i]
    ensures Normal(rooted, Reduce(rooted, stack, parts))
    decreases |parts|
  {
    if parts != [] {
      PushNormal(rooted, stack, parts[0]);
      ReduceNormal(rooted, Push(rooted, stack, parts[0]), parts[1..]);
    }
  }

  lemma PushNormal(rooted: bool, stack: seq<string>, c: string)
    requires Normal(rooted, stack) && '/' !in c
    ensures Normal(rooted, Push(rooted, stack, c))
  {
    if c == ".." && !rooted && !(stack != [] && stack[|stack| - 1] != "..") {
      if stack != [] { assert forall j :: 0 <= j < |stack| ==> stack[j] == ".."; }
    }
  }

  /** The components of a cleaned path are in normal form: in particular ".." can
      only lead a relative one. */
  lemma PartsNormal(s: string)
    ensures Normal(IsRooted(s), Parts(s))
  {
    ReduceNormal(IsRooted(s), [], Split(s, '/'));
  }

  lemma {:induction false} ReduceAppend(rooted: bool, stack: seq<string>, a: seq<string>, b: seq<string>)
    ensures Reduce(rooted, stack, a + b) == Reduce(rooted, Reduce(rooted, stack, a), b)
    decreases |a|
  {
    if a == [] {
      assert a + b == b;
    } else {
      assert (a + b)[1..] == a[1..] + b;
      ReduceAppend(rooted, Push(rooted, stack, a[0]), a[1..], b);
    }
  }

  /** Pushing a normal form onto the stack it may follow changes nothing in it. */
  lemma {:induction false} ReduceIdentity(rooted: bool, stack: seq<string>, cs: seq<string>)
    requires Normal(rooted, stack + cs)
    ensures Reduce(rooted, stack, cs) == stack + cs
    decreases |cs|
  {
    if cs == [] {
      assert stack + cs == stack;
    } else {
      var k := |stack|;
      assert (stack + cs)[k] == cs[0];
      if cs[0] == ".." && stack != [] { assert (stack + cs)[k - 1] == stack[k - 1] == ".."; }
      assert stack + [cs[0]] + cs[1..] == stack + cs;
      ReduceIdentity(rooted, stack + [cs[0]], cs[1..]);
    }
  }

  lemma NormalHasNoSlash(rooted: bool, cs: seq<string>)
    requires Normal(rooted, cs)
    ensures forall i :: 0 <= i < |cs| ==> '/' !in cs[i] && cs[i] != ""
  {
  }

  lemma JoinStarts(cs: seq<string>)
    requires cs != [] && cs[0] != ""
    ensures cs[0] <= JoinWith(cs, '/')
  {
  }

  /** Reading back what was rendered. */
  lemma PartsOfRender(rooted: bool, cs: seq<string>)
    requires Normal(rooted, cs)
    ensures IsRooted(Render(rooted, cs)) == rooted && Parts(Render(rooted, cs)) == cs
  {
    NormalHasNoSlash(rooted, cs);
    assert [] + cs == cs;
    ReduceIdentity(rooted, [], cs);
    if cs == [] {
      if rooted {
        assert "/" + "" == "/" && "/"[1..] == "";
        assert Split("/", '/') == ["", ""];
        assert ["", ""][1..] == [""] && [""][1..] == [];
      } else {
        SplitName(".", '/');
        assert ["."][1..] == [];
      }
    } else {
      SplitJoin(cs, '/');
      JoinStarts(cs);
      if rooted {
        var s := "/" + JoinWith(cs, '/');
        assert s[1..] == JoinWith(cs, '/');
        assert ([""] + cs)[1..] == cs;
      } else {
        assert JoinWith(cs, '/')[0] == cs[0][0] && cs[0][0] in cs[0];
      }
    }
  }

  lemma CleanIdempotent(s: string)
    ensures Parts(Clean(s)) == Parts(s) && IsRooted(Clean(s)) == IsRooted(s)
    ensures Clean(Clean(s)) == Clean(s)
  {
    PartsNormal(s);
    PartsOfRender(IsRooted(s), Parts(s));
  }

  /** Joining a relative path of plain names appends its components. */
  lemma JoinNames(root: string, rel: string)
    requires root != "" && rel != "" && !IsRooted(rel) && ".." !in Parts(rel)
    ensures IsRooted(root + "/" + rel) == IsRooted(root)
    ensures Parts(root + "/" + rel) == Parts(root) + Parts(rel)
  {
    var rooted := IsRooted(root);
    SplitConcat(root, rel, '/');
    ReduceAppend(rooted, [], Split(root, '/'), Split(rel, '/'));
    PartsNormal(rel);
    ReduceShift(rooted, Parts(root), [], Split(rel, '/'));
    assert Parts(root) + [] == Parts(root);
  }

  /** As long as ".." never eats into it, what is below on the stack is inert. */
  lemma {:induction false} ReduceShift(rooted: bool, base: seq<string>, stack: seq<string>, parts: seq<string>)
    requires Normal(false, stack) && ".." !in Reduce(false, stack, parts)
    requires forall i :: 0 <= i < |parts| ==> '/' !in parts[i]
    ensures Reduce(rooted, base + stack, parts) == base + Reduce(false, stack, parts)
    decreases |parts|
  {
    if parts != [] {
      PushNormal(false, stack, parts[0]);
      var stack' := Push(false, stack, parts[0]);
      if ".." in stack' {
        DotsStay(stack', parts[1..]);
      }
      assert Push(rooted, base + stack, parts[0]) == base + stack';
      ReduceShift(rooted, base, stack', parts[1..]);
    }
  }

  /** A leading ".." of a relative path can never be popped again. */
  lemma {:induction false} DotsStay(stack: seq<string>, parts: seq<string>)
    requires Normal(false, stack) && ".." in stack && forall i :: 0 <= i < |parts| ==> '/' !in parts[i]
    ensures ".." in Reduce(false, stack, parts)
    decreases |parts|
  {
    if parts != [] {
      PushNormal(false, stack, parts[0]);
      var i :| 0 <= i < |stack| && stack[i] == "..";
      assert stack[0] == "..";
      var next := Push(false, stack, parts[0]);
      assert next[0] == "..";
      DotsStay(next, parts[1..]);
    }
  }

  // ---- The rules of Clean, on strings ------------------------------------------------

  /** Two strings joined by a slash: the components of the second are put on the stack that
      the first left. */
  lemma PartsOfJoined(s: string, t: string)
    ensures IsRooted(s + "/" + t) == (s == "" || IsRooted(s))
    ensures var rooted := s == "" || IsRooted(s);
            Parts(s + "/" + t) == Reduce(rooted, Reduce(rooted, [], Split(s, '/')), Split(t, '/'))
  {
    SplitConcat(s, t, '/');
    ReduceAppend(s == "" || IsRooted(s), [], Split(s, '/'), Split(t, '/'));
  }

  lemma PartsOfThree(s: string, m: string, t: string)
    ensures IsRooted(s + "/" + m + "/" + t) == (s == "" || IsRooted(s))
    ensures var rooted := s == "" || IsRooted(s);
            Parts(s + "/" + m + "/" + t)
            == Reduce(rooted, Reduce(rooted, Reduce(rooted, [], Split(s, '/')), Split(m, '/')), Split(t, '/'))
  {
    PartsOfJoined(s + "/" + m, t);
    PartsOfJoined(s, m);
  }

  lemma UpUndoesName(rooted: bool, stack: seq<string>, c: string)
    requires IsName(c)
    ensures Reduce(rooted, stack, [c, ".."]) == stack
  {
    assert [c, ".."][1..] == [".."] && [".."][1..] == [];
    assert Push(rooted, stack + [c], "..") == stack;
    assert Reduce(rooted, stack + [c], [".."]) == stack;
  }

  lemma SplitNameUp(c: string)
    requires IsName(c)
    ensures Split(c + "/..", '/') == [c, ".."]
  {
    SplitConcat(c, "..", '/');
    SplitName(c, '/');
    SplitName("..", '/');
    assert c + "/.." == c + ['/'] + "..";
  }

  /** A name and ".." behind it cancel, wherever they stand. */
  lemma NameUpCancels(s: string, c: string, t: string)
    requires IsName(c)
    ensures Clean(s + "/" + c + "/../" + t) == Clean(s + "/" + t)
  {
    var rooted := s == "" || IsRooted(s);
    PartsOfJoined(s, t);
    PartsOfThree(s, c + "/..", t);
    SplitNameUp(c);
    UpUndoesName(rooted, Reduce(rooted, [], Split(s, '/')), c);
    Regroup(s, c, t);
  }

  lemma Regroup(s: string, c: string, t: string)
    ensures s + "/" + c + "/../" + t == s + "/" + (c + "/..") + "/" + t
  {
    assert "/../" == "/.." + "/";
  }

  lemma NameUpAtEnd(s: string, c: string)
    requires s != "" && IsName(c)
    ensures Clean(s + "/" + c + "/..") == Clean(s)
  {
    PartsOfJoined(s, c + "/..");
    SplitNameUp(c);
    UpUndoesName(IsRooted(s), Parts(s), c);
    assert s + "/" + c + "/.." == s + "/" + (c + "/..");
  }

  lemma NameUpAtStart(c: string, t: string)
    requires IsName(c) && t != "" && !IsRooted(t)
    ensures Clean(c + "/../" + t) == Clean(t)
  {
    var s := c + "/..";
    SplitNameUp(c);
    UpUndoesName(false, [], c);
    PartsOfJoined(s, t);
    assert !IsRooted(s) by { assert s[0] == c[0] && c[0] in c; }
    assert c + "/../" + t == s + "/" + t;
  }

  /** At the root ".." goes nowhere. */
  lemma UpAtRoot(t: string)
    ensures Clean("/..") == "/" && Clean("/../" + t) == Clean("/" + t)
  {
    UpAtRootStays();
    PartsOfJoined("", t);
    PartsOfJoined("/..", t);
    assert "" + "/" + t == "/" + t && "/.." + "/" + t == "/../" + t;
    assert Render(true, []) == "/";
  }

  lemma UpAtRootStays()
    ensures Reduce(true, [], Split("", '/')) == [] && Reduce(true, [], Split("/..", '/')) == []
  {
    SplitConcat("", "..", '/');
    SplitName("..", '/');
    assert "" + ['/'] + ".." == "/.." && Split("", '/') == [""];
    assert ["", ".."][1..] == [".."] && [".."][1..] == [] && [""][1..] == [];
  }

  /** In front of a relative path ".." stays: one more of them leads one further up. */
  lemma UpStaysInFront(s: string)
    requires s != "" && !IsRooted(s) && forall i :: 0 <= i < |Parts(s)| ==> Parts(s)[i] == ".."
    ensures Clean(s + "/..") == Render(false, Parts(s) + [".."])
  {
    PartsOfJoined(s, "..");
    SplitName("..", '/');
    assert [".."][1..] == [] && s + "/" + ".." == s + "/..";
    assert Push(false, Parts(s), "..") == Parts(s) + [".."];
    assert Reduce(false, Parts(s), [".."]) == Push(false, Parts(s), "..");
  }

  /** Empty components and "." vanish. */
  lemma DotVanishes(s: string, t: string)
    ensures Clean(s + "//" + t) == Clean(s + "/" + t) && Clean(s + "/./" + t) == Clean(s + "/" + t)
    ensures s != "" ==> Clean(s + "/") == Clean(s) && Clean(s + "/.") == Clean(s)
  {
    EmptyVanishes(s, "", t);
    SplitName(".", '/');
    EmptyVanishes(s, ".", t);
    assert s + "/" + "" + "/" + t == s + "//" + t && s + "/" + "." + "/" + t == s + "/./" + t;
    assert s + "/" + "" == s + "/" && s + "/" + "." == s + "/.";
  }

  lemma EmptyVanishes(s: string, c: string, t: string)
    requires (c == "" || c == ".") && Split(c, '/') == [c]
    ensures Clean(s + "/" + c + "/" + t) == Clean(s + "/" + t) && (s != "" ==> Clean(s + "/" + c) == Clean(s))
  {
    PartsOfJoined(s, t);
    PartsOfJoined(s, c);
    PartsOfThree(s, c, t);
    assert [c][1..] == [];
  }

  lemma SlashAfterIff(a: seq<string>, b: seq<string>)
    requires a != [] && b != [] && (forall i :: 0 <= i < |a| ==> '/' !in a[i])
             && (forall i :: 0 <= i < |b| ==> '/' !in b[i])
    ensures JoinWith(a, '/') + "/" <= JoinWith(b, '/') <==> a < b
  {
    var x, y := JoinWith(a, '/') + "/", JoinWith(b, '/');
    if x <= y {
      var t := y[|x|..];
      assert y == JoinWith(a, '/') + "/" + t;
      SplitConcat(JoinWith(a, '/'), t, '/');
      SplitJoin(a, '/');
      SplitJoin(b, '/');
    }
    if a < b {
      var c := b[|a|..];
      assert b == a + c;
      JoinAppend(a, c, '/');
    }
  }

  /** The string test "has root plus separator as a prefix" is the test that root's
      components are a proper prefix; but for the bare root it always fails. */
  lemma PrefixIsComponentPrefix(a: seq<string>, b: seq<string>)
    requires Normal(true, a) && Normal(true, b)
    ensures Render(true, a) + "/" <= Render(true, b) <==> a != [] && a < b
  {
    NormalHasNoSlash(true, a);
    NormalHasNoSlash(true, b);
    var x, y := Render(true, a) + "/", Render(true, b);
    assert x[1..] == JoinWith(a, '/') + "/" && y[1..] == JoinWith(b, '/');
    assert x <= y <==> x[1..] <= y[1..];
    if a == [] {
      if b != [] { JoinStarts(b); assert JoinWith(b, '/')[0] == b[0][0] && b[0][0] in b[0]; }
    } else if b != [] {
      SlashAfterIff(a, b);
    }
  }

  lemma RenderInjective(a: seq<string>, b: seq<string>)
    requires Normal(true, a) && Normal(true, b)
    ensures Render(true, a) == Render(true, b) <==> a == b
  {
    PartsOfRender(true, a);
    PartsOfRender(true, b);
  }

  // ---- Dir -------------------------------------------------------------------

  function DirOf(s: string): string {
    Clean(s[..LastIndexByte(s, '/') + 1])
  }

  /** A rooted path up to and including its last slash. */
  function Head(init: seq<string>): string {
    if init == [] then "/" else Render(true, init) + "/"
  }

  lemma HeadAndLast(init: seq<string>, last: string)
    requires IsName(last)
    ensures Render(true, init + [last]) == Head(init) + last
  {
    if init != [] { JoinAppend(init, [last], '/'); } else { assert init + [last] == [last]; }
  }

  lemma LastSlashOf(head: string, last: string)
    requires head != "" && head[|head| - 1] == '/' && '/' !in last
    ensures LastIndexByte(head + last, '/') == |head| - 1
  {
    var s := head + last;
    assert forall i :: |head| <= i < |s| ==> s[i] == last[i - |head|];
    assert s[|head| - 1] == '/';
    var r := LastIndexByte(s, '/');
  }

  lemma CleanHead(init: seq<string>)
    requires Normal(true, init)
    ensures Clean(Head(init)) == Render(true, init)
  {
    PartsOfRender(true, init);
    if init == [] {
      assert Render(true, []) == "/";
    } else {
      var r := Render(true, init);
      assert Head(init) == r + "/" + "";
      SplitConcat(r, "", '/');
      assert Split("", '/') == [""] && [""][1..] == [];
      ReduceAppend(true, [], Split(r, '/'), [""]);
      assert IsRooted(Head(init)) && Parts(Head(init)) == Reduce(true, Parts(r), [""]) == init;
    }
  }

  lemma DirOfRender(cs: seq<string>)
    requires Normal(true, cs)
    ensures DirOf(Render(true, cs)) == Render(true, if cs == [] then [] else cs[..|cs| - 1])
  {
    if cs == [] {
      LastSlashOf("/", "");
      assert "/" + "" == "/" && "/"[..1] == "/";
      PartsOfRender(true, []);
    } else {
      var init, last := cs[..|cs| - 1], cs[|cs| - 1];
      assert cs == init + [last];
      HeadAndLast(init, last);
      LastSlashOf(Head(init), last);
      assert (Head(init) + last)[..|Head(init)|] == Head(init);
      CleanHead(init);
    }
  }
}
