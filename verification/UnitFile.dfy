/** systemdQuote and shellQuote, and what systemd and the shell read back. */
module UnitFile {
  import opened Options
  import opened Strings

  const NUL: char := '\0'

  /** strings.NewReplacer on single bytes replaces them all in one pass. */
  function QuoteChar(c: char): string {
    if c == '\\' then "\\\\"
    else if c == '"' then "\\\""
    else if c == '%' then "%%"
    else if c == '$' then "$$"
    else if c == '\n' then "\\n"
    else if c == '\r' then "\\r"
    else [c]
  }

  function SystemdQuote(s: string): string {
    "\"" + Substitute(s, QuoteChar) + "\""
  }

  // ---- systemd's reading of an ExecStart= value ---------------------------------

  predicate IsBlank(c: char) {
    c == ' ' || c == '\t' || c == '\n' || c == '\r'
  }

  /** The one-character C escapes; numeric ones are not needed to read what
      systemdQuote writes, and are refused like unknown ones. */
  function Unescape(c: char): Option<char> {
    if c == '\\' || c == '"' || c == '\'' then Some(c)
    else if c == 'n' then Some('\n')
    else if c == 'r' then Some('\r')
    else if c == 't' then Some('\t')
    else if c == 's' then Some(' ')
    else None
  }

  function Text(word: Option<string>): string {
    if word.Some? then word.value else ""
  }

  function Cons(word: string, rest: Option<seq<string>>): Option<seq<string>> {
    if rest.Some? then Some([word] + rest.value) else None
  }

  /** Word splitting with quotes and escapes. `word` is the word being read, if any,
      and `quote` the quotation mark it is inside of. NUL ends a C string. */
  function Words(s: string, word: Option<string>, quote: Option<char>): Option<seq<string>>
    decreases |s|
  {
    if s == "" then
      if quote.Some? then None else if word.Some? then Some([word.value]) else Some([])
    else
      var c := s[0];
      if c == NUL then None
      else if quote.None? && IsBlank(c) then
        if word.Some? then Cons(word.value, Words(s[1..], None, None)) else Words(s[1..], None, None)
      else if c == '\\' then
        if |s| > 1 && Unescape(s[1]).Some? then Words(s[2..], Some(Text(word) + [Unescape(s[1]).value]), quote)
          else None
      else if quote == Some(c) then Words(s[1..], Some(Text(word)), None)
      else if quote.None? && (c == '"' || c == '\'') then Words(s[1..], Some(Text(word)), Some(c))
      else Words(s[1..], Some(Text(word) + [c]), quote)
  }

  /** %-specifiers: %% is a percent sign, a final % stands for itself; any other
      depends on the unit and is refused here. */
  function Specifiers(s: string): Option<string> {
    if s == "" then Some("")
    else if s[0] != '%' then AddChar(s[0], Specifiers(s[1..]))
    else if |s| == 1 then Some("%")
    else if s[1] == '%' then AddChar('%', Specifiers(s[2..]))
    else None
  }

  /** Variables: $$ is a dollar sign, ${...} and a leading $NAME depend on the
      environment and are refused here; any other $ stands for itself. */
  function Variables(s: string, leading: bool): Option<string> {
    if s == "" then Some("")
    else if s[0] != '$' then AddChar(s[0], Variables(s[1..], false))
    else if |s| > 1 && s[1] == '$' then AddChar('$', Variables(s[2..], false))
    else if leading || (|s| > 1 && s[1] == '{') then None
    else AddChar('$', Variables(s[1..], false))
  }

  function AddChar(c: char, rest: Option<string>): Option<string> {
    if rest.Some? then Some([c] + rest.value) else None
  }

  /** One word as the program gets it: specifiers when the unit is loaded, then
      variables when it is started. */
  function Expand(word: string): Option<string> {
    var w := Specifiers(word);
    if w.Some? then Variables(w.value, true) else None
  }

  function ExpandAll(words: seq<string>): Option<seq<string>> {
    if words == [] then Some([])
    else
      var w := Expand(words[0]);
      if w.Some? then Cons(w.value, ExpandAll(words[1..])) else None
  }

  /** The arguments an ExecStart= value gives the program. */
  function Arguments(line: string): Option<seq<string>> {
    var words := Words(line, None, None);
    if words.Some? then ExpandAll(words.value) else None
  }

  // ---- The round trip -------------------------------------------------------------

  function PercentDollar(c: char): string {
    if c == '%' then "%%" else if c == '$' then "$$" else [c]
  }

  function Dollar(c: char): string {
    if c == '$' then "$$" else [c]
  }

  /** One quoted character, whatever follows: it adds its text to the word. */
  lemma WordsOne(c: char, later: string, w: string)
    requires c != NUL
    ensures Words(QuoteChar(c) + later, Some(w), Some('"')) == Words(later, Some(w + PercentDollar(c)), Some('"'))
  {
    var s := QuoteChar(c) + later;
    if c == '%' || c == '$' {
      assert s[1..] == [c] + later && s[1..][1..] == later;
      assert w + [c] + [c] == w + PercentDollar(c);
    } else if |QuoteChar(c)| == 2 {
      assert s[2..] == later;
    } else {
      assert s[1..] == later;
    }
  }

  /** A quoted text inside a line: it is read up to its closing quote. */
  lemma {:induction false} WordsQuoted(s: string, later: string, w: string)
    ensures Words(Substitute(s, QuoteChar) + "\"" + later, Some(w), Some('"')) ==
            if NUL in s then None else Words(later, Some(w + Substitute(s, PercentDollar)), None)
    decreases |s|
  {
    var line := Substitute(s, QuoteChar) + "\"" + later;
    if s == "" {
      assert line == "\"" + later && line[1..] == later;
      assert w + "" == w;
    } else {
      var rest := Substitute(s[1..], QuoteChar) + "\"" + later;
      assert line == QuoteChar(s[0]) + rest;
      if s[0] != NUL {
        WordsOne(s[0], rest, w);
        WordsQuoted(s[1..], later, w + PercentDollar(s[0]));
        assert w + PercentDollar(s[0]) + Substitute(s[1..], PercentDollar) == w + Substitute(s, PercentDollar);
        assert NUL in s <==> NUL in s[1..];
      }
    }
  }

  lemma SpecifiersOne(c: char, later: string)
    ensures Specifiers(PercentDollar(c) + Substitute(later, PercentDollar)) ==
            if c == '$' then AddChar('$', AddChar('$', Specifiers(Substitute(later, PercentDollar))))
            else AddChar(c, Specifiers(Substitute(later, PercentDollar)))
  {
    var rest := Substitute(later, PercentDollar);
    var s := PercentDollar(c) + rest;
    if c == '$' {
      assert s[1..] == "$" + rest && s[1..][1..] == rest;
    } else if c == '%' {
      assert s[2..] == rest;
    } else {
      assert s[1..] == rest;
    }
  }

  lemma {:induction false} SpecifiersUndone(s: string)
    ensures Specifiers(Substitute(s, PercentDollar)) == Some(Substitute(s, Dollar))
    decreases |s|
  {
    if s != "" {
      SpecifiersUndone(s[1..]);
      SpecifiersOne(s[0], s[1..]);
      if s[0] == '$' { assert "$" + ("$" + Substitute(s[1..], Dollar)) == Substitute(s, Dollar); }
    }
  }

  lemma VariablesOne(c: char, later: string, leading: bool)
    ensures Variables(Dollar(c) + later, leading) == AddChar(c, Variables(later, false))
  {
    var s := Dollar(c) + later;
    if c == '$' {
      assert s[2..] == later;
    } else {
      assert s[1..] == later;
    }
  }

  lemma {:induction false} VariablesUndone(s: string, leading: bool)
    ensures Variables(Substitute(s, Dollar), leading) == Some(s)
    decreases |s|
  {
    if s != "" {
      VariablesUndone(s[1..], false);
      VariablesOne(s[0], Substitute(s[1..], Dollar), leading);
      assert [s[0]] + s[1..] == s;
    }
  }

  lemma ExpandUndone(s: string)
    ensures Expand(Substitute(s, PercentDollar)) == Some(s)
  {
    SpecifiersUndone(s);
    VariablesUndone(s, true);
  }

  lemma QuotedWord(s: string)
    ensures Words(SystemdQuote(s), None, None) == if NUL in s then None else Some([Substitute(s, PercentDollar)])
  {
    var q, word := SystemdQuote(s), Substitute(s, PercentDollar);
    assert q[0] == '"' && q[1..] == Substitute(s, QuoteChar) + "\"" + "";
    WordsQuoted(s, "", "");
    assert "" + word == word;
    assert Words(q, None, None) == Words(q[1..], Some(""), Some('"'));
  }

  lemma ExpandOne(word: string, s: string)
    requires Expand(word) == Some(s)
    ensures ExpandAll([word]) == Some([s])
  {
    assert [word][1..] == [] && [s] + [] == [s];
    assert ExpandAll([]) == Some([]);
  }

  /** systemd reads the quoted text as exactly one word, byte for byte the original,
      for every string a C string can hold, and for no other. */
  lemma SystemdRoundTrip(s: string)
    ensures Arguments(SystemdQuote(s)) == Some([s]) <==> NUL !in s
    ensures NUL in s ==> Arguments(SystemdQuote(s)) == None
  {
    var word := Substitute(s, PercentDollar);
    QuotedWord(s);
    if NUL !in s {
      ExpandUndone(s);
      ExpandOne(word, s);
    }
  }

  /** The quoted text never breaks the line it stands on. */
  lemma QuotedStaysOnLine(s: string)
    ensures '\n' !in SystemdQuote(s) && '\r' !in SystemdQuote(s)
  {
    SubstituteAvoids(s, QuoteChar, '\n');
    SubstituteAvoids(s, QuoteChar, '\r');
  }

  // ---- shellQuote -----------------------------------------------------------------

  function ShellQuote(s: string): string {
    "'" + ReplaceAll(s, '\'', "'\\''") + "'"
  }

  datatype ShellWord = Malformed | Word(text: string, rest: string)

  function AddTo(c: char, w: ShellWord): ShellWord {
    if w.Word? then w.(text := [c] + w.text) else w
  }

  /** Characters that mean something else to the shell when not quoted. */
  predicate IsShellSpecial(c: char) {
    c in "|&;<>()$`\"*?[#~=%!{}" || c == NUL
  }

  /** The first shell word of s: single quotes keep everything up to the next one,
      a backslash outside of them keeps the next character, a blank ends the word. */
  function ReadWord(s: string, quoted: bool): ShellWord {
    if s == "" then if quoted then Malformed else Word("", "")
    else if quoted then
      if s[0] == '\'' then ReadWord(s[1..], false)
      else if s[0] == NUL then Malformed
      else AddTo(s[0], ReadWord(s[1..], true))
    else if s[0] == '\'' then ReadWord(s[1..], true)
    else if s[0] == ' ' || s[0] == '\t' || s[0] == '\n' then Word("", s)
    else if s[0] == '\\' then
      if |s| > 1 && s[1] != '\n' && s[1] != NUL then AddTo(s[1], ReadWord(s[2..], false)) else Malformed
    else if IsShellSpecial(s[0]) then Malformed
    else AddTo(s[0], ReadWord(s[1..], false))
  }

  function ShellChar(c: char): string {
    if c == '\'' then "'\\''" else [c]
  }

  lemma {:induction false} ShellQuoteChars(s: string)
    ensures ReplaceAll(s, '\'', "'\\''") == Substitute(s, ShellChar)
    decreases |s|
  {
    if s != "" { ShellQuoteChars(s[1..]); }
  }

  lemma ReadOne(c: char, later: string)
    requires c != NUL
    ensures ReadWord(ShellChar(c) + later, true) == AddTo(c, ReadWord(later, true))
  {
    var s := ShellChar(c) + later;
    if c == '\'' {
      assert s[1..] == "\\''" + later;
      assert ("\\''" + later)[2..] == "'" + later;
      assert ("'" + later)[1..] == later;
      assert ReadWord("'" + later, false) == ReadWord(later, true);
      assert ReadWord("\\''" + later, false) == AddTo('\'', ReadWord("'" + later, false));
    } else {
      assert s[1..] == later;
    }
  }

  lemma {:induction false} ReadQuoted(s: string, later: string)
    requires NUL !in s && (later == "" || later[0] == ' ' || later[0] == '\t' || later[0] == '\n')
    ensures ReadWord(Substitute(s, ShellChar) + "'" + later, true) == Word(s, later)
    decreases |s|
  {
    var line := Substitute(s, ShellChar) + "'" + later;
    if s == "" {
      assert line == "'" + later && line[1..] == later;
    } else {
      var rest := Substitute(s[1..], ShellChar) + "'" + later;
      assert line == ShellChar(s[0]) + rest;
      ReadOne(s[0], rest);
      ReadQuoted(s[1..], later);
      assert [s[0]] + s[1..] == s;
    }
  }

  /** The shell reads the quoted text as one word that is the original, and goes on
      right behind it. */
  lemma ShellRoundTrip(s: string, later: string)
    requires NUL !in s && (later == "" || later[0] == ' ' || later[0] == '\t' || later[0] == '\n')
    ensures ReadWord(ShellQuote(s) + later, false) == Word(s, later)
  {
    ShellQuoteChars(s);
    var line := ShellQuote(s) + later;
    assert line[1..] == Substitute(s, ShellChar) + "'" + later;
    ReadQuoted(s, later);
  }

  // ---- The command line of the unit --------------------------------------------------

  const SHELL_COMMAND := "/bin/sh -lc "

  lemma PlainWord(c: char, later: string, w: Option<string>)
    requires c != NUL && !IsBlank(c) && c != '\\' && c != '"' && c != '\''
    ensures Words([c] + later, w, None) == Words(later, Some(Text(w) + [c]), None)
  {
    assert ([c] + later)[1..] == later;
  }

  lemma {:induction false} PlainText(s: string, later: string, w: string)
    requires forall i :: 0 <= i < |s| ==> s[i] != NUL && !IsBlank(s[i]) && s[i] != '\\' && s[i] != '"' && s[i] != '\''
    ensures Words(s + later, Some(w), None) == Words(later, Some(w + s), None)
    decreases |s|
  {
    if s == "" {
      assert s + later == later && w + s == w;
    } else {
      PlainWord(s[0], s[1..] + later, Some(w));
      assert s + later == [s[0]] + (s[1..] + later);
      PlainText(s[1..], later, w + [s[0]]);
      assert w + [s[0]] + s[1..] == w + s;
    }
  }

  lemma BlankEnds(later: string, w: string)
    ensures Words(" " + later, Some(w), None) == Cons(w, Words(later, None, None))
  {
    assert (" " + later)[1..] == later;
  }

  lemma PlainFirstWord(c: char, s: string, later: string)
    requires forall i :: 0 <= i < |[c] + s| ==> var x := ([c] + s)[i];
             x != NUL && !IsBlank(x) && x != '\\' && x != '"' && x != '\''
    ensures Words([c] + s + " " + later, None, None) == Cons([c] + s, Words(later, None, None))
  {
    assert ([c] + s)[0] == c && forall i :: 0 <= i < |s| ==> s[i] == ([c] + s)[i + 1];
    assert [c] + s + " " + later == [c] + (s + (" " + later));
    PlainWord(c, s + (" " + later), None);
    assert "" + [c] == [c];
    PlainText(s, " " + later, [c]);
    BlankEnds(later, [c] + s);
  }

  lemma LeadingWords(q: string, word: string)
    requires Words(q, None, None) == Some([word])
    ensures Words(SHELL_COMMAND + q, None, None) == Some(["/bin/sh"] + (["-lc"] + [word]))
  {
    PlainFirstWord('-', "lc", q);
    PlainFirstWord('/', "bin/sh", "-lc" + " " + q);
    assert ['-'] + "lc" == "-lc" && ['/'] + "bin/sh" == "/bin/sh";
    assert SHELL_COMMAND + q == "/bin/sh" + " " + ("-lc" + " " + q);
  }

  /** systemd starts exactly /bin/sh -lc with the command behind "exec " as its one
      last argument. */
  lemma ExecStartArguments(command: string)
    requires NUL !in command
    ensures Arguments(SHELL_COMMAND + SystemdQuote("exec " + command)) == Some(["/bin/sh", "-lc", "exec " + command])
  {
    var s := "exec " + command;
    var q, word := SystemdQuote(s), Substitute(s, PercentDollar);
    QuotedWord(s);
    LeadingWords(q, word);
    ExpandUndone(s);
    ExpandThree("/bin/sh", "-lc", word, s);
  }

  lemma ExpandThree(a: string, b: string, word: string, s: string)
    requires a == "/bin/sh" && b == "-lc" && Expand(word) == Some(s)
    ensures ExpandAll([a] + ([b] + [word])) == Some([a, b, s])
  {
    PlainExpand(a);
    PlainExpand(b);
    assert ([a] + ([b] + [word]))[1..] == [b] + [word] && ([b] + [word])[1..] == [word];
    ExpandOne(word, s);
    assert ExpandAll([b] + [word]) == Some([b] + [s]);
    assert [a] + ([b] + [s]) == [a, b, s];
  }

  lemma PlainExpand(s: string)
    requires '%' !in s && '$' !in s
    ensures Expand(s) == Some(s)
  {
    NoPercent(s);
    NoDollar(s, true);
  }

  lemma {:induction false} NoPercent(s: string)
    requires '%' !in s
    ensures Specifiers(s) == Some(s)
    decreases |s|
  {
    if s != "" {
      NoPercent(s[1..]);
      assert s[0] in s && [s[0]] + s[1..] == s;
    }
  }

  lemma {:induction false} NoDollar(s: string, leading: bool)
    requires '$' !in s
    ensures Variables(s, leading) == Some(s)
    decreases |s|
  {
    if s != "" {
      NoDollar(s[1..], false);
      assert s[0] in s && [s[0]] + s[1..] == s;
    }
  }
}
