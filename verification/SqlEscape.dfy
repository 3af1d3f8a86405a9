/** SanitizeSQLString: five replacements in sequence, and what a reader of SQL string
    literals makes of the result. */
module SqlEscape {
  import opened Strings

  const NUL: char := '\0'

  /** The replacements in the order of the code. */
  function SanitizeSQLString(s: string): string {
    var s1 := ReplaceAll(s, '\\', "\\\\");
    var s2 := ReplaceAll(s1, '\'', "''");
    var s3 := ReplaceAll(s2, NUL, "");
    var s4 := ReplaceAll(s3, '\n', "\\n");
    ReplaceAll(s4, '\r', "\\r")
  }

  /** What becomes of one character. */
  function Escape(c: char): string {
    if c == '\\' then "\\\\"
    else if c == '\'' then "''"
    else if c == NUL then ""
    else if c == '\n' then "\\n"
    else if c == '\r' then "\\r"
    else [c]
  }

  function Escape2(c: char): string {
    if c == '\\' then "\\\\" else if c == '\'' then "''" else [c]
  }

  function Escape3(c: char): string {
    if c == NUL then "" else Escape2(c)
  }

  function Escape4(c: char): string {
    if c == '\n' then "\\n" else Escape3(c)
  }

  lemma ReplaceOne(c: char, r: char, to: string)
    ensures ReplaceAll([c], r, to) == if c == r then to else [c]
  {
    SubstituteOne(c, x => if x == r then to else [x]);
  }

  lemma ReplaceTwo(c: char, d: char, r: char, to: string)
    ensures ReplaceAll([c, d], r, to) == (if c == r then to else [c]) + (if d == r then to else [d])
  {
    ReplaceOne(c, r, to);
    ReplaceOne(d, r, to);
    SubstituteConcat([c], [d], x => if x == r then to else [x]);
    assert [c] + [d] == [c, d];
  }

  lemma ThenReplace(f: char -> string, r: char, to: string, h: char -> string, s: string)
    requires forall c :: h(c) == ReplaceAll(f(c), r, to)
    ensures ReplaceAll(Substitute(s, f), r, to) == Substitute(s, h)
  {
    SubstituteTwice(s, f, x => if x == r then to else [x], h);
  }

  /** The order of the replacements is right: no replacement touches what an earlier
      one produced, so together they are one substitution per character. */
  lemma SequenceIsSimultaneous(s: string)
    ensures SanitizeSQLString(s) == Substitute(s, Escape)
  {
    var slash := (x: char) => if x == '\\' then "\\\\" else [x];
    forall c
      ensures Escape2(c) == ReplaceAll(slash(c), '\'', "''")
      ensures Escape3(c) == ReplaceAll(Escape2(c), NUL, "")
      ensures Escape4(c) == ReplaceAll(Escape3(c), '\n', "\\n")
      ensures Escape(c) == ReplaceAll(Escape4(c), '\r', "\\r")
    {
      StepByStep(c);
    }
    assert ReplaceAll(s, '\\', "\\\\") == Substitute(s, slash) by {
      SameSubstitute(s, x => if x == '\\' then "\\\\" else [x], slash);
    }
    ThenReplace(slash, '\'', "''", Escape2, s);
    ThenReplace(Escape2, NUL, "", Escape3, s);
    ThenReplace(Escape3, '\n', "\\n", Escape4, s);
    ThenReplace(Escape4, '\r', "\\r", Escape, s);
  }

  lemma {:induction false} SameSubstitute(s: string, f: char -> string, g: char -> string)
    requires forall c :: f(c) == g(c)
    ensures Substitute(s, f) == Substitute(s, g)
    decreases |s|
  {
    if s != "" { SameSubstitute(s[1..], f, g); }
  }

  lemma StepByStep(c: char)
    ensures Escape2(c) == ReplaceAll(if c == '\\' then "\\\\" else [c], '\'', "''")
    ensures Escape3(c) == ReplaceAll(Escape2(c), NUL, "")
    ensures Escape4(c) == ReplaceAll(Escape3(c), '\n', "\\n")
    ensures Escape(c) == ReplaceAll(Escape4(c), '\r', "\\r")
  {
    ReplaceOne(c, '\'', "''");
    ReplaceOne(c, NUL, "");
    ReplaceOne(c, '\n', "\\n");
    ReplaceOne(c, '\r', "\\r");
    forall r: char, to: string ensures ReplaceAll("", r, to) == "" {}
    ReplaceTwo('\\', '\\', '\'', "''");
    ReplaceTwo('\\', '\\', NUL, "");
    ReplaceTwo('\\', '\\', '\n', "\\n");
    ReplaceTwo('\\', '\\', '\r', "\\r");
    ReplaceTwo('\'', '\'', NUL, "");
    ReplaceTwo('\'', '\'', '\n', "\\n");
    ReplaceTwo('\'', '\'', '\r', "\\r");
    ReplaceTwo('\\', 'n', '\r', "\\r");
  }

  // ---- Reading a literal back -------------------------------------------------

  datatype Literal = Unterminated | Closed(value: string, rest: string)

  function Prepend(c: char, l: Literal): Literal {
    if l.Closed? then l.(value := [c] + l.value) else l
  }

  /** A backslash escape: n and r are control characters, anything else is itself. */
  function Unescaped(c: char): char {
    if c == 'n' then '\n' else if c == 'r' then '\r' else c
  }

  /** Reads the body of a quoted literal up to its closing quote; a doubled quote is
      a quote, a backslash escapes the next character. */
  function ReadLiteral(s: string): Literal {
    if s == "" then Unterminated
    else if s[0] == '\'' then
      if |s| > 1 && s[1] == '\'' then Prepend('\'', ReadLiteral(s[2..])) else Closed("", s[1..])
    else if s[0] == '\\' then
      if |s| > 1 then Prepend(Unescaped(s[1]), ReadLiteral(s[2..])) else Unterminated
    else Prepend(s[0], ReadLiteral(s[1..]))
  }

  function WithoutNuls(s: string): string {
    if s == "" then "" else (if s[0] == NUL then "" else [s[0]]) + WithoutNuls(s[1..])
  }

  /** The reader takes each escape as one unit, whatever follows. */
  lemma ReadOne(c: char, later: string)
    ensures ReadLiteral(Escape(c) + later) == if c == NUL then ReadLiteral(later) else Prepend(c, ReadLiteral(later))
  {
    var s := Escape(c) + later;
    if |Escape(c)| == 2 {
      assert s[2..] == later;
    } else if |Escape(c)| == 1 {
      assert s[1..] == later;
    } else {
      assert s == later;
    }
  }

  lemma {:induction false} ReadEscaped(s: string, rest: string)
    requires rest == "" || rest[0] != '\''
    ensures ReadLiteral(Substitute(s, Escape) + "'" + rest) == Closed(WithoutNuls(s), rest)
    decreases |s|
  {
    var tail := Substitute(s, Escape) + "'" + rest;
    if s == "" {
      assert tail == "'" + rest && tail[1..] == rest;
    } else {
      var later := Substitute(s[1..], Escape) + "'" + rest;
      assert tail == Escape(s[0]) + later;
      ReadEscaped(s[1..], rest);
      ReadOne(s[0], later);
    }
  }

  /** For every string: between quotes, the sanitized text is one literal that ends
      where it was meant to end and denotes the input without its NULs. */
  lemma SanitizedRoundTrip(s: string, rest: string)
    requires rest == "" || rest[0] != '\''
    ensures ReadLiteral(SanitizeSQLString(s) + "'" + rest) == Closed(WithoutNuls(s), rest)
  {
    SequenceIsSimultaneous(s);
    ReadEscaped(s, rest);
  }

  /** Hence two inputs are confused exactly when they differ in NULs only. */
  lemma SanitizedInjectiveIff(s: string, t: string)
    ensures SanitizeSQLString(s) == SanitizeSQLString(t) <==> WithoutNuls(s) == WithoutNuls(t)
  {
    SanitizedRoundTrip(s, "");
    SanitizedRoundTrip(t, "");
    NulsDoNotMatter(s);
    NulsDoNotMatter(t);
  }

  lemma {:induction false} NulsDoNotMatter(s: string)
    ensures SanitizeSQLString(s) == SanitizeSQLString(WithoutNuls(s))
  {
    SequenceIsSimultaneous(s);
    SequenceIsSimultaneous(WithoutNuls(s));
    EscapeDropsNuls(s);
  }

  lemma {:induction false} EscapeDropsNuls(s: string)
    ensures Substitute(s, Escape) == Substitute(WithoutNuls(s), Escape)
    decreases |s|
  {
    if s != "" {
      EscapeDropsNuls(s[1..]);
      if s[0] == NUL {
        assert Substitute(s, Escape) == "" + Substitute(s[1..], Escape);
        assert WithoutNuls(s) == "" + WithoutNuls(s[1..]) == WithoutNuls(s[1..]);
      } else {
        assert WithoutNuls(s) == [s[0]] + WithoutNuls(s[1..]);
        assert ([s[0]] + WithoutNuls(s[1..]))[1..] == WithoutNuls(s[1..]);
      }
    }
  }

  /** With line breaks replaced before backslashes the round trip would fail. */
  lemma OrderMatters()
    ensures ReadLiteral(ReplaceAll(ReplaceAll("\n", '\n', "\\n"), '\\', "\\\\") + "'") == Closed("\\n", "")
  {
    ReplaceOne('\n', '\n', "\\n");
    ReplaceTwo('\\', 'n', '\\', "\\\\");
    var s := "\\\\n'";
    assert ReplaceAll(ReplaceAll("\n", '\n', "\\n"), '\\', "\\\\") + "'" == s;
    assert s[2..] == "n'" && "n'"[1..] == "'" && "'"[1..] == "";
    assert ReadLiteral("'") == Closed("", "");
    assert ReadLiteral("n'") == Closed("n", "");
  }
}
