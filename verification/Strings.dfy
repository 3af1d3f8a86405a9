/** The string operations of the standard library that several files use. */
module Strings {

  /** unicode.IsSpace */
  predicate IsSpace(c: char) {
    c == ' ' || '\t' <= c <= '\r' || c == '\U{85}' || c == '\U{A0}' || c == '\U{1680}'
    || '\U{2000}' <= c <= '\U{200a}' || c == '\U{2028}' || c == '\U{2029}' || c == '\U{202f}' || c == '\U{205f}'
      || c == '\U{3000}'
  }

  function TrimLeft(s: string): (r: string)
    ensures |r| <= |s|
  {
    if s != "" && IsSpace(s[0]) then TrimLeft(s[1..]) else s
  }

  function TrimRight(s: string): (r: string)
    ensures |r| <= |s|
  {
    if s != "" && IsSpace(s[|s| - 1]) then TrimRight(s[..|s| - 1]) else s
  }

  function TrimSpace(s: string): (r: string)
    ensures |r| <= |s|
  {
    TrimRight(TrimLeft(s))
  }

  predicate OccursAt(s: string, sub: string, i: int) {
    0 <= i <= |s| - |sub| && s[i..i + |sub|] == sub
  }

  predicate Contains(s: string, sub: string) {
    exists i :: 0 <= i <= |s| && OccursAt(s, sub, i)
  }

  /** strings.Index: the first occurrence, or -1. */
  function Index(s: string, sub: string): (r: int)
    ensures r == -1 || OccursAt(s, sub, r)
    ensures forall i :: OccursAt(s, sub, i) ==> 0 <= r <= i
  {
    IndexFrom(s, sub, 0)
  }

  function IndexFrom(s: string, sub: string, from: nat): (r: int)
    requires from <= |s|
    ensures r == -1 || (from <= r && OccursAt(s, sub, r))
    ensures forall i :: from <= i && OccursAt(s, sub, i) ==> from <= r <= i
    decreases |s| - from
  {
    if OccursAt(s, sub, from) then from
    else if from == |s| then -1
    else IndexFrom(s, sub, from + 1)
  }

  /** strings.IndexByte: the first place of c, or -1. */
  function IndexByte(s: string, c: char): (r: int)
    ensures -1 <= r < |s|
    ensures r >= 0 ==> s[r] == c
    ensures forall i :: 0 <= i < |s| && s[i] == c ==> 0 <= r <= i
  {
    IndexByteFrom(s, c, 0)
  }

  function IndexByteFrom(s: string, c: char, from: nat): (r: int)
    requires from <= |s|
    ensures r == -1 || (from <= r < |s| && s[r] == c)
    ensures forall i :: from <= i < |s| && s[i] == c ==> from <= r <= i
    decreases |s| - from
  {
    if from == |s| then -1
    else if s[from] == c then from
    else IndexByteFrom(s, c, from + 1)
  }

  /** strings.LastIndex of one character: its last place, or -1. */
  function LastIndexByte(s: string, c: char): (r: int)
    ensures -1 <= r < |s|
    ensures r >= 0 ==> s[r] == c
    ensures forall i :: 0 <= i < |s| && s[i] == c ==> i <= r
  {
    if s == "" then -1
    else if s[|s| - 1] == c then |s| - 1
    else LastIndexByte(s[..|s| - 1], c)
  }

  // ---- Splitting and joining ------------------------------------------------

  /** strings.Split on one character. */
  function Split(s: string, sep: char): (r: seq<string>)
    ensures r != [] && forall i :: 0 <= i < |r| ==> sep !in r[i]
  {
    if s == "" then [""]
    else if s[0] == sep then [""] + Split(s[1..], sep)
    else
      var r := Split(s[1..], sep);
      [[s[0]] + r[0]] + r[1..]
  }

  /** strings.Join with one character. */
  function JoinWith(cs: seq<string>, sep: char): string {
    if cs == [] then "" else if |cs| == 1 then cs[0] else cs[0] + [sep] + JoinWith(cs[1..], sep)
  }

  lemma {:induction false} SplitConcat(a: string, b: string, sep: char)
    ensures Split(a + [sep] + b, sep) == Split(a, sep) + Split(b, sep)
    decreases |a|
  {
    var s := a + [sep] + b;
    if a == "" {
      assert s[1..] == b;
    } else {
      assert s[1..] == a[1..] + [sep] + b;
      SplitConcat(a[1..], b, sep);
    }
  }

  lemma {:induction false} SplitName(c: string, sep: char)
    requires sep !in c
    ensures Split(c, sep) == [c]
    decreases |c|
  {
    if c != "" {
      SplitName(c[1..], sep);
      assert [c[0]] + c[1..] == c;
    }
  }

  /** Splitting what was joined gives back the parts. */
  lemma {:induction false} SplitJoin(cs: seq<string>, sep: char)
    requires cs != [] && forall i :: 0 <= i < |cs| ==> sep !in cs[i]
    ensures Split(JoinWith(cs, sep), sep) == cs
    decreases |cs|
  {
    SplitName(cs[0], sep);
    if |cs| > 1 {
      SplitConcat(cs[0], JoinWith(cs[1..], sep), sep);
      SplitJoin(cs[1..], sep);
      assert cs == [cs[0]] + cs[1..];
    } else {
      assert cs == [cs[0]];
    }
  }

  lemma {:induction false} JoinAppend(a: seq<string>, b: seq<string>, sep: char)
    requires a != [] && b != []
    ensures JoinWith(a + b, sep) == JoinWith(a, sep) + [sep] + JoinWith(b, sep)
    decreases |a|
  {
    assert (a + b)[1..] == a[1..] + b;
    if |a| > 1 { JoinAppend(a[1..], b, sep); }
  }

  // ---- Replacing single characters -------------------------------------------

  /** Every character replaced at once. */
  function Substitute(s: string, sub: char -> string): string {
    if s == "" then "" else sub(s[0]) + Substitute(s[1..], sub)
  }

  /** strings.ReplaceAll of one character. */
  function ReplaceAll(s: string, c: char, new': string): string {
    Substitute(s, x => if x == c then new' else [x])
  }

  lemma {:induction false} SubstituteConcat(a: string, b: string, sub: char -> string)
    ensures Substitute(a + b, sub) == Substitute(a, sub) + Substitute(b, sub)
    decreases |a|
  {
    if a == "" {
      assert a + b == b;
    } else {
      assert (a + b)[1..] == a[1..] + b;
      SubstituteConcat(a[1..], b, sub);
    }
  }

  lemma SubstituteOne(c: char, sub: char -> string)
    ensures Substitute([c], sub) == sub(c)
  {
    assert [c][1..] == "" && sub(c) + "" == sub(c);
  }

  /** One substitution after another is the substitution of the images. */
  lemma {:induction false} SubstituteTwice(s: string, f: char -> string, g: char -> string, h: char -> string)
    requires forall c :: h(c) == Substitute(f(c), g)
    ensures Substitute(Substitute(s, f), g) == Substitute(s, h)
    decreases |s|
  {
    if s != "" {
      SubstituteConcat(f(s[0]), Substitute(s[1..], f), g);
      SubstituteTwice(s[1..], f, g, h);
    }
  }

  lemma {:induction false} SubstituteAvoids(s: string, sub: char -> string, bad: char)
    requires forall c :: bad !in sub(c)
    ensures bad !in Substitute(s, sub)
    decreases |s|
  {
    if s != "" { SubstituteAvoids(s[1..], sub, bad); }
  }
}
