/** Enabling the nginx bot blocker, and taking it back when the configuration test fails (bot_blocker.go). */
module BotBlocker {
  import opened Strings

  const TEXT := "SigardaPanel Bot Blocker"
  const MARKER := "    # " + TEXT
  const OPENING := "\n    if ($bad_bot) "
  const REFUSAL := "\n        return 403;\n    "
  const BLOCK := MARKER + OPENING + "{" + REFUSAL + "}\n\n"

  // ---- One file --------------------------------------------------------------

  /** injectBotBlockInclude */
  function Injected(content: string): (r: string)
    ensures !Contains(content, TEXT) && '}' in content ==>
              exists k :: 0 <= k < |content| && content[k] == '}' && '}' !in content[k + 1..]
                          && r == content[..k] + BLOCK + content[k..]
    ensures Contains(content, TEXT) || '}' !in content ==> r == content
  {
    if Contains(content, TEXT) then content
    else
      var brace := LastIndexByte(content, '}');
      if brace < 0 then content
      else
        assert content[brace] == '}' && '}' !in content[brace + 1..];
        content[..brace] + BLOCK + content[brace..]
  }

  function DropNewlines(s: string): (r: string)
    ensures |r| <= |s|
  {
    if s != "" && s[0] == '\n' then DropNewlines(s[1..]) else s
  }

  /** What is left without the first marker, everything up to the first brace after it, and the newlines
      after that. */
  function Cut(content: string, marker: string): string {
    var start := Index(content, marker);
    if start < 0 then content
    else
      var brace := IndexByte(content[start..], '}');
      if brace < 0 then content else content[..start] + DropNewlines(content[start + brace + 1..])
  }

  /** What removeBotBlockInclude leaves. */
  function Removed(content: string): string {
    Cut(content, MARKER)
  }

  lemma CutFrom(content: string, marker: string, start: nat, end: nat, tail: string)
    requires start == Index(content, marker) && start < end <= |content| && tail == content[end..]
    requires IndexByte(content[start..], '}') == end - start - 1
    ensures Cut(content, marker) == content[..start] + DropNewlines(tail)
  {
  }

  lemma NoNewlineFirst(s: string)
    requires s == "" || s[0] != '\n'
    ensures DropNewlines(s) == s
  {
  }

  method RemoveBlock(content: string, startMarker: string) returns (r: string)
    ensures r == Cut(content, startMarker)
  {
    var start := Index(content, startMarker);
    if start < 0 { return content; }
    var endBlock := IndexByte(content[start..], '}');
    if endBlock < 0 { return content; }
    var end := start + endBlock + 1;
    ghost var tail := content[end..];
    CutFrom(content, startMarker, start, end, tail);
    while end < |content| && content[end] == '\n'
      invariant start < end <= |content|
      invariant DropNewlines(content[end..]) == DropNewlines(tail)
    {
      assert content[end..][1..] == content[end + 1..];
      end := end + 1;
    }
    NoNewlineFirst(content[end..]);
    assert content[end..] == DropNewlines(tail);
    r := content[..start] + content[end..];
  }

  /** The content has the marker with a closing brace somewhere after it. */
  ghost predicate Marked(content: string, marker: string) {
    exists i, j :: OccursAt(content, marker, i) && i <= j < |content| && content[j] == '}'
  }

  ghost predicate Carries(content: string) {
    Marked(content, MARKER)
  }

  lemma MarkerHasText(s: string, i: int)
    requires OccursAt(s, MARKER, i)
    ensures Contains(s, TEXT)
  {
    assert s[i..i + |MARKER|][6..] == TEXT;
    assert OccursAt(s, TEXT, i + 6);
  }

  lemma BraceFrom(content: string, start: nat)
    requires start <= |content|
    ensures IndexByte(content[start..], '}') < 0 ==> forall j :: start <= j < |content| ==> content[j] != '}'
    ensures IndexByte(content[start..], '}') >= 0 ==> content[start + IndexByte(content[start..], '}')] == '}'
  {
    var rest := content[start..];
    assert forall j :: start <= j < |content| ==> content[j] == rest[j - start];
  }

  lemma CutShrinks(content: string, marker: string)
    requires Index(content, marker) >= 0 && IndexByte(content[Index(content, marker)..], '}') >= 0
    ensures |Cut(content, marker)| < |content|
  {
  }

  lemma CutIff(content: string, marker: string)
    ensures Marked(content, marker) ==> |Cut(content, marker)| < |content|
    ensures !Marked(content, marker) ==> Cut(content, marker) == content
  {
    var start := Index(content, marker);
    if start >= 0 {
      BraceFrom(content, start);
      var brace := IndexByte(content[start..], '}');
      if brace >= 0 {
        CutShrinks(content, marker);
        assert OccursAt(content, marker, start) && start <= start + brace < |content|;
      }
    }
  }

  /** Removing takes something away exactly from the contents that carry a block. */
  lemma RemovesIff(content: string)
    ensures Carries(content) ==> |Removed(content)| < |content|
    ensures !Carries(content) ==> Removed(content) == content
  {
    CutIff(content, MARKER);
  }

  /** A text with one '#', right after four leading spaces, and no space at its end: no end of it is the
      beginning of another copy. */
  lemma NoBorder(m: string, k: int)
    requires |m| > 4 && m[..4] == "    " && m[4] == '#' && '#' !in m[5..] && m[|m| - 1] != ' '
    requires 0 < k < |m|
    ensures m[k..] != m[..|m| - k]
  {
    assert m[0] == m[..4][0] && m[1] == m[..4][1] && m[2] == m[..4][2] && m[3] == m[..4][3];
    if k + 4 < |m| {
      assert m[k + 4] == m[5..][k - 1] == m[k..][4];
      assert m[4] == m[..|m| - k][4];
    } else {
      assert m[|m| - 1] == m[k..][|m| - k - 1];
      assert m[|m| - k - 1] == m[..|m| - k][|m| - k - 1];
    }
  }

  predicate Borderless(m: string) {
    forall k :: 0 < k < |m| ==> m[k..] != m[..|m| - k]
  }

  /** A marker found before the planted text lies wholly in what was there, or overlaps the planted copy. */
  lemma EarlierOccurrence(before: string, planted: string, after: string, m: string, i: nat)
    requires m <= planted && i < |before| && OccursAt(before + planted + after, m, i)
    ensures |before| - i < |m| ==> m[|before| - i..] == m[..|m| - (|before| - i)]
    ensures |before| - i >= |m| ==> OccursAt(before + after, m, i)
  {
    var s, k := before + planted + after, |before| - i;
    assert s[i..i + |m|] == m;
    if k < |m| {
      assert m[k..] == s[|before|..|before| + |m| - k] == planted[..|m| - k] == m[..|m| - k];
    } else {
      assert m == before[i..i + |m|] == (before + after)[i..i + |m|];
    }
  }

  /** Planting text that starts with a borderless marker, where the marker did not occur, makes it occur
      there first. */
  lemma PlantedIsFirst(before: string, planted: string, after: string, m: string)
    requires m <= planted && Borderless(m)
    requires forall i :: !OccursAt(before + after, m, i)
    ensures Index(before + planted + after, m) == |before|
  {
    var s := before + planted + after;
    assert s[|before|..|before| + |m|] == m;
    assert OccursAt(s, m, |before|);
    var i := Index(s, m);
    if i < |before| { EarlierOccurrence(before, planted, after, m, i); }
  }

  lemma MarkerIsBorderless()
    ensures Borderless(MARKER)
  {
    assert MARKER[5..] == " " + TEXT && '#' !in TEXT;
    assert MARKER[..4] == "    " && MARKER[4] == '#';
    assert MARKER[|MARKER| - 1] == 'r';
    forall k | 0 < k < |MARKER| ensures MARKER[k..] != MARKER[..|MARKER| - k] { NoBorder(MARKER, k); }
  }

  lemma BlockHasOneBrace()
    ensures '}' !in MARKER + OPENING + "{" + REFUSAL
  {
    assert '}' !in TEXT && '}' !in OPENING && '}' !in REFUSAL;
  }

  lemma FirstAfter(head: string, c: char, rest: string)
    requires c !in head
    ensures IndexByte(head + [c] + rest, c) == |head|
  {
    var s := head + [c] + rest;
    assert s[|head|] == c;
    assert forall i :: 0 <= i < |head| ==> s[i] == head[i];
  }

  lemma TwoNewlinesDrop(after: string)
    requires after != "" && after[0] != '\n'
    ensures DropNewlines("\n\n" + after) == after
  {
    var one, two := "\n" + after, "\n\n" + after;
    assert two[0] == '\n' && two[1..] == one && one[0] == '\n' && one[1..] == after;
    assert DropNewlines(two) == DropNewlines(one) == DropNewlines(after) == after;
  }

  lemma Around(a: string, b: string, c: string)
    ensures (a + b + c)[..|a|] == a && (a + b + c)[|a|..] == b + c && (a + b + c)[|a| + |b|..] == c
  {}

  lemma RemovedFromMiddle(before: string, after: string)
    requires !Contains(before + after, TEXT) && after != "" && after[0] != '\n'
    ensures Removed(before + BLOCK + after) == before + after
  {
    var head := MARKER + OPENING + "{" + REFUSAL;
    MarkerIsBorderless();
    forall i ensures !OccursAt(before + after, MARKER, i) {
      if OccursAt(before + after, MARKER, i) { MarkerHasText(before + after, i); }
    }
    PlantedIsFirst(before, BLOCK, after, MARKER);
    BlockHasOneBrace();
    TwoNewlinesDrop(after);
    assert BLOCK == head + "}" + "\n\n";
    assert before + BLOCK + after == before + (head + "}") + ("\n\n" + after);
    CutAt(before, head, "\n\n" + after, MARKER);
  }

  lemma CutAt(before: string, head: string, rest: string, marker: string)
    requires Index(before + (head + "}") + rest, marker) == |before|
    requires '}' !in head
    ensures Cut(before + (head + "}") + rest, marker) == before + DropNewlines(rest)
  {
    Around(before, head + "}", rest);
    FirstAfter(head, '}', rest);
  }

  /** Removing undoes injecting, byte for byte, exactly for the contents that did not carry a block already. */
  lemma RemoveUndoesInjectIff(content: string)
    ensures Removed(Injected(content)) == content <==> !Carries(content)
  {
    RemovesIff(content);
    if Contains(content, TEXT) {
    } else {
      assert !Carries(content) by {
        forall i | OccursAt(content, MARKER, i) ensures false { MarkerHasText(content, i); }
      }
      var brace := LastIndexByte(content, '}');
      if brace >= 0 {
        assert content == content[..brace] + content[brace..];
        RemovedFromMiddle(content[..brace], content[brace..]);
      }
    }
  }

  /** A second injection changes nothing. */
  lemma MarkedBetween(front: string, back: string)
    ensures OccursAt(front + BLOCK + back, MARKER, |front|)
  {
    var s := front + BLOCK + back;
    assert s[|front|..|front| + |BLOCK|] == BLOCK && BLOCK[..|MARKER|] == MARKER;
    assert s[|front|..|front| + |MARKER|] == s[|front|..|front| + |BLOCK|][..|MARKER|];
  }

  lemma InjectIsIdempotent(content: string)
    ensures Injected(Injected(content)) == Injected(content)
  {
    var brace := LastIndexByte(content, '}');
    if !Contains(content, TEXT) && brace >= 0 {
      MarkedBetween(content[..brace], content[brace..]);
      MarkerHasText(content[..brace] + BLOCK + content[brace..], brace);
    }
  }

  // ---- Where the block lands ----------------------------------------------------

  /** How many braces are open at the end of s. */
  function Depth(s: string): int {
    if s == "" then 0
    else Depth(s[..|s| - 1]) + if s[|s| - 1] == '{' then 1 else if s[|s| - 1] == '}' then -1 else 0
  }

  /** Every brace that closes was opened, and every one that opens is closed. */
  ghost predicate Balanced(s: string) {
    Depth(s) == 0 && forall k :: 0 <= k <= |s| ==> Depth(s[..k]) >= 0
  }

  lemma {:induction false} DepthConcat(a: string, b: string)
    ensures Depth(a + b) == Depth(a) + Depth(b)
    decreases |b|
  {
    if b == "" {
      assert a + b == a;
    } else {
      assert (a + b)[..|a + b| - 1] == a + b[..|b| - 1];
      DepthConcat(a, b[..|b| - 1]);
    }
  }

  lemma {:induction false} DepthOfFlat(s: string)
    requires '}' !in s
    ensures Depth(s) >= 0
    ensures '{' !in s ==> Depth(s) == 0
    decreases |s|
  {
    if s != "" { DepthOfFlat(s[..|s| - 1]); }
  }

  lemma PiecesAreFlat()
    ensures Depth(MARKER + OPENING) == 0 && Depth(REFUSAL) == 0 && Depth("\n\n") == 0
  {
    assert '{' !in TEXT && '{' !in OPENING && '{' !in REFUSAL;
    BlockHasOneBrace();
    assert '}' !in MARKER + OPENING && '}' !in REFUSAL by { assert '}' !in TEXT && '}' !in OPENING && '}' !in REFUSAL; }
    DepthOfFlat(MARKER + OPENING);
    DepthOfFlat(REFUSAL);
    DepthOfFlat("\n\n");
  }

  lemma BlockIsBalanced()
    ensures Depth(BLOCK) == 0
  {
    var open, close := MARKER + OPENING, "\n\n";
    PiecesAreFlat();
    DepthConcat(open, "{");
    DepthConcat(open + "{", REFUSAL);
    DepthConcat(open + "{" + REFUSAL, "}");
    DepthConcat(open + "{" + REFUSAL + "}", close);
    assert BLOCK == open + "{" + REFUSAL + "}" + close;
  }

  lemma DepthWithInside(content: string, k: int, block: string)
    requires 0 <= k <= |content|
    ensures Depth(content[..k] + block + content[k..]) == Depth(content) + Depth(block)
  {
    assert content == content[..k] + content[k..];
    DepthConcat(content[..k], content[k..]);
    DepthConcat(content[..k], block);
    DepthConcat(content[..k] + block, content[k..]);
  }

  lemma DepthAtLastClose(content: string, k: int)
    requires Depth(content) == 0 && 0 <= k < |content| && content[k] == '}' && '}' !in content[k + 1..]
    requires Depth(content[..k + 1]) >= 0
    ensures Depth(content[..k]) == 1
  {
    assert content == content[..k + 1] + content[k + 1..];
    DepthConcat(content[..k + 1], content[k + 1..]);
    DepthOfFlat(content[k + 1..]);
    assert content[..k + 1][..k] == content[..k];
  }

  lemma LastIs(s: string, c: char, k: int)
    requires 0 <= k < |s| && s[k] == c && c !in s[k + 1..]
    ensures LastIndexByte(s, c) == k
  {
    assert forall i :: k < i < |s| ==> s[i] == s[k + 1..][i - k - 1];
  }

  /** In a balanced configuration the block lands directly inside the last top-level block, and as many
      braces are closed as opened. */
  lemma InjectedIntoLastBlock(content: string, k: int)
    requires Balanced(content) && !Contains(content, TEXT)
    requires 0 <= k < |content| && content[k] == '}' && '}' !in content[k + 1..]
    ensures Injected(content) == content[..k] + BLOCK + content[k..]
    ensures Depth(content[..k]) == 1
    ensures Depth(Injected(content)) == 0
  {
    LastIs(content, '}', k);
    assert Depth(content[..k + 1]) >= 0;
    DepthAtLastClose(content, k);
    BlockIsBalanced();
    DepthWithInside(content, k, BLOCK);
  }

  // ---- All site files --------------------------------------------------------------

  type Files = map<string, string>

  /** The block removed n times. */
  function RemovedTimes(content: string, n: nat): string {
    if n == 0 then content else Removed(RemovedTimes(content, n - 1))
  }

  lemma {:induction false} RemovedTimesIff(content: string, n: nat)
    ensures |RemovedTimes(content, n)| <= |content|
    ensures RemovedTimes(content, n) == content <==> n == 0 || !Carries(content)
    ensures n > 0 && Carries(content) ==> |RemovedTimes(content, n)| < |content|
  {
    if n > 0 {
      RemovedTimesIff(content, n - 1);
      RemovesIff(RemovedTimes(content, n - 1));
    }
  }

  function InjectAll(files: Files, names: seq<string>): (r: Files)
    ensures r.Keys == files.Keys
    decreases |names|
  {
    if names == [] then files
    else
      var before := InjectAll(files, names[..|names| - 1]);
      var f := names[|names| - 1];
      if f == "" || f == "default" || f !in before then before else before[f := Injected(before[f])]
  }

  function RemoveAll(files: Files, names: seq<string>): (r: Files)
    ensures r.Keys == files.Keys
    decreases |names|
  {
    if names == [] then files
    else
      var before := RemoveAll(files, names[..|names| - 1]);
      var f := names[|names| - 1];
      if f == "" || f !in before then before else before[f := Removed(before[f])]
  }

  lemma InjectLast(files: Files, names: seq<string>, f: string)
    requires f in files && names != []
    ensures var init, last := names[..|names| - 1], names[|names| - 1];
            && (f in names <==> f in init || f == last)
            && InjectAll(files, names)[f]
               == if f == last && f != "" && f != "default" then Injected(InjectAll(files, init)[f])
                  else InjectAll(files, init)[f]
  {
    assert names == names[..|names| - 1] + [names[|names| - 1]];
  }

  lemma {:induction false} InjectAllOne(files: Files, names: seq<string>, f: string)
    requires f in files
    ensures InjectAll(files, names)[f] == files[f] || InjectAll(files, names)[f] == Injected(files[f])
    ensures f == "" || f == "default" || f !in names ==> InjectAll(files, names)[f] == files[f]
    ensures !(f == "" || f == "default" || f !in names) ==> InjectAll(files, names)[f] == Injected(files[f])
    decreases |names|
  {
    if names != [] {
      InjectAllOne(files, names[..|names| - 1], f);
      InjectIsIdempotent(files[f]);
      InjectLast(files, names, f);
    }
  }

  lemma {:induction false} RemoveAllOne(files: Files, names: seq<string>, f: string)
    requires f in files
    ensures RemoveAll(files, names)[f] == RemovedTimes(files[f], if f == "" then 0 else multiset(names)[f])
    decreases |names|
  {
    if names != [] {
      RemoveAllOne(files, names[..|names| - 1], f);
      assert names == names[..|names| - 1] + [names[|names| - 1]];
    }
  }

  lemma RemovedAfterInject(content: string)
    ensures Removed(Injected(content)) == Removed(content)
  {
    if !Contains(content, TEXT) {
      RemoveUndoesInjectIff(content);
      assert !Carries(content) by {
        forall i | OccursAt(content, MARKER, i) ensures false { MarkerHasText(content, i); }
      }
      RemovesIff(content);
    }
  }

  lemma {:induction false} RemovedTimesAfterInject(content: string, n: nat)
    requires n > 0
    ensures RemovedTimes(Injected(content), n) == RemovedTimes(content, n)
  {
    if n > 1 { RemovedTimesAfterInject(content, n - 1); } else { RemovedAfterInject(content); }
  }

  /** A failed enable leaves each file as if the block had only been removed from it, once per time it
      is listed; so it leaves a file as it was exactly when that file is not listed or did not carry a block. */
  lemma FailedEnableRestoresIff(files: Files, names: seq<string>, f: string)
    requires f in files
    ensures f in RemoveAll(InjectAll(files, names), names)
    ensures RemoveAll(InjectAll(files, names), names)[f]
            == RemovedTimes(files[f], if f == "" then 0 else multiset(names)[f])
    ensures RemoveAll(InjectAll(files, names), names)[f] == files[f] <==> f == "" || f !in names || !Carries(files[f])
  {
    InjectAllOne(files, names, f);
    RemoveAllOne(InjectAll(files, names), names, f);
    var n := if f == "" then 0 else multiset(names)[f];
    if n > 0 { RemovedTimesAfterInject(files[f], n); }
    RemovedTimesIff(files[f], n);
  }

  class Sites {
    /** /etc/nginx/sites-enabled, name by name. */
    var files: Files
    /** Whether conf.d/bot-blocker.conf is there. */
    var mapped: bool

    method Inject(name: string)
      modifies `files
      ensures files == if name in old(files) then old(files)[name := Injected(old(files)[name])] else old(files)
    {
      if name !in files { return; }
      var content := files[name];
      if Contains(content, TEXT) { return; }
      var lastBrace := LastIndexByte(content, '}');
      if lastBrace < 0 { return; }
      files := files[name := content[..lastBrace] + BLOCK + content[lastBrace..]];
    }

    method Remove(name: string)
      modifies `files
      ensures files == if name in old(files) then old(files)[name := Removed(old(files)[name])] else old(files)
    {
      if name !in files { return; }
      var content := RemoveBlock(files[name], MARKER);
      files := files[name := content];
    }

    method InjectEach(names: seq<string>)
      modifies `files
      ensures files == InjectAll(old(files), names)
    {
      for i := 0 to |names|
        invariant files == InjectAll(old(files), names[..i])
      {
        assert names[..i + 1][..i] == names[..i];
        if names[i] == "" || names[i] == "default" { continue; }
        Inject(names[i]);
      }
      assert names[..|names|] == names;
    }

    method RemoveEach(names: seq<string>)
      modifies `files
      ensures files == RemoveAll(old(files), names)
    {
      for i := 0 to |names|
        invariant files == RemoveAll(old(files), names[..i])
      {
        assert names[..i + 1][..i] == names[..i];
        if names[i] != "" { Remove(names[i]); }
      }
      assert names[..|names|] == names;
    }

    /** enableBotBlocker. The parameters are the outcomes of the map file's write and of the configuration
        test, and what ls printed. */
    method Enable(written: bool, listing: string, accepted: bool) returns (ok: bool)
      modifies this
      ensures ok == (written && accepted)
      ensures !written ==> files == old(files) && mapped == old(mapped)
      ensures written ==> mapped == accepted
      ensures ok ==> files == InjectAll(old(files), Split(TrimSpace(listing), '\n'))
      ensures written && !accepted ==>
                var names := Split(TrimSpace(listing), '\n');
                files == RemoveAll(InjectAll(old(files), names), names)
    {
      if !written { return false; }
      mapped := true;
      var names := Split(TrimSpace(listing), '\n');
      if listing != "" {
        InjectEach(names);
      } else {
        assert names == [""] && names[..0] == [];
      }
      if !accepted {
        mapped := false;
        RemoveEach(names);
      }
      ok := accepted;
    }
  }
}
