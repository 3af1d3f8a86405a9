/** The systemd unit of an app: its lines, how systemd reads them, and what they say. */
module UnitContent {
  import opened Decimals
  import opened Options
  import opened Strings
  import opened UnitFile

  /** The characters at which systemd's reader ends a line. */
  predicate EndsLine(c: char) {
    c == '\n' || c == '\r' || c == NUL
  }

  predicate OneLine(s: string) {
    forall c :: c in s ==> !EndsLine(c)
  }

  /** The lines of a unit file as systemd's reader returns them. */
  function ReadLines(s: string): (r: seq<string>)
    ensures r != [] && AllLines(r)
  {
    if s == "" then [""]
    else
      var r := ReadLines(s[1..]);
      if EndsLine(s[0]) then [""] + r else [[s[0]] + r[0]] + r[1..]
  }

  predicate AllLines(lines: seq<string>) {
    forall i :: 0 <= i < |lines| ==> OneLine(lines[i])
  }

  lemma {:induction false} FirstLine(line: string, later: string)
    requires OneLine(line)
    ensures ReadLines(line + "\n" + later) == [line] + ReadLines(later)
    decreases |line|
  {
    var s := line + "\n" + later;
    if line == "" {
      assert s[1..] == later;
    } else {
      assert s[1..] == line[1..] + "\n" + later;
      FirstLine(line[1..], later);
      assert [line[0]] + line[1..] == line;
    }
  }

  lemma {:induction false} LastLine(line: string)
    requires OneLine(line)
    ensures ReadLines(line) == [line]
    decreases |line|
  {
    if line != "" {
      LastLine(line[1..]);
      assert [line[0]] + line[1..] == line;
    }
  }

  lemma {:induction false} LinesJoined(lines: seq<string>)
    requires lines != [] && AllLines(lines)
    ensures ReadLines(JoinWith(lines, '\n')) == lines
    decreases |lines|
  {
    if |lines| == 1 {
      LastLine(lines[0]);
    } else {
      FirstLine(lines[0], JoinWith(lines[1..], '\n'));
      LinesJoined(lines[1..]);
    }
  }

  lemma JoinedLine(x: string, y: string)
    ensures OneLine(x + y) <==> OneLine(x) && OneLine(y)
  {
    assert forall i :: 0 <= i < |x| ==> (x + y)[i] == x[i];
    assert forall i :: 0 <= i < |y| ==> (x + y)[|x| + i] == y[i];
  }

  // ---- Lines that go on -----------------------------------------------------------------

  /** A line goes on in the next if an odd number of backslashes is at its end. */
  predicate GoesOn(s: string) {
    s != "" && s[|s| - 1] == '\\' && !GoesOn(s[..|s| - 1])
  }

  /** Lines that go on are joined with the next, a blank in place of the backslash. */
  function Joined(lines: seq<string>): seq<string>
    decreases |lines|
  {
    if |lines| < 2 then lines
    else if !GoesOn(lines[0]) then [lines[0]] + Joined(lines[1..])
    else Joined([lines[0][..|lines[0]| - 1] + " " + lines[1]] + lines[2..])
  }

  /** The lines that systemd interprets. */
  function SystemdLines(s: string): seq<string> {
    Joined(ReadLines(s))
  }

  lemma {:induction false} JoinedAreLines(lines: seq<string>)
    requires AllLines(lines)
    ensures AllLines(Joined(lines))
    decreases |lines|
  {
    if |lines| >= 2 {
      if !GoesOn(lines[0]) {
        JoinedAreLines(lines[1..]);
      } else {
        var front := lines[0][..|lines[0]| - 1];
        JoinedLine(front, [lines[0][|lines[0]| - 1]]);
        assert front + [lines[0][|lines[0]| - 1]] == lines[0];
        JoinedLine(front, " ");
        JoinedLine(front + " ", lines[1]);
        JoinedAreLines([front + " " + lines[1]] + lines[2..]);
      }
    }
  }

  /** Nothing is joined exactly when no line but perhaps the last goes on. */
  lemma {:induction false} JoinedSameIff(lines: seq<string>)
    ensures |Joined(lines)| <= |lines|
    ensures Joined(lines) == lines <==> forall i :: 0 <= i < |lines| - 1 ==> !GoesOn(lines[i])
    decreases |lines|
  {
    if |lines| >= 2 {
      if !GoesOn(lines[0]) {
        JoinedSameIff(lines[1..]);
        assert lines == [lines[0]] + lines[1..];
        assert forall i :: 0 < i < |lines| - 1 ==> lines[i] == lines[1..][i - 1];
        assert forall i :: 0 <= i < |lines[1..]| - 1 ==> lines[1..][i] == lines[i + 1];
        assert Joined(lines)[1..] == Joined(lines[1..]);
      } else {
        JoinedSameIff([lines[0][..|lines[0]| - 1] + " " + lines[1]] + lines[2..]);
      }
    }
  }

  /** One line that does not go on. */
  predicate Whole(s: string) {
    OneLine(s) && !GoesOn(s)
  }

  ghost predicate AllWhole(lines: seq<string>) {
    forall i :: 0 <= i < |lines| ==> Whole(lines[i])
  }

  predicate Plain(s: string) {
    forall c :: c in s ==> !EndsLine(c) && c != '\\'
  }

  lemma PlainIsWhole(s: string)
    requires Plain(s)
    ensures Whole(s)
  {
    assert s != "" ==> s[|s| - 1] in s;
  }

  lemma {:induction false} GoesOnBehind(x: string, y: string)
    requires Plain(x)
    ensures GoesOn(x + y) == GoesOn(y)
    decreases |y|
  {
    if y == "" {
      assert x + y == x;
      PlainIsWhole(x);
    } else {
      assert (x + y)[..|x + y| - 1] == x + y[..|y| - 1];
      GoesOnBehind(x, y[..|y| - 1]);
    }
  }

  lemma WholeBehind(x: string, y: string)
    requires Plain(x)
    ensures Whole(x + y) <==> Whole(y)
  {
    PlainIsWhole(x);
    JoinedLine(x, y);
    GoesOnBehind(x, y);
  }

  lemma PlainTogether(x: string, y: string)
    requires Plain(x) && Plain(y)
    ensures Plain(x + y)
  {
  }

  // ---- What the lines say -----------------------------------------------------------

  /** A section's header, or an assignment. */
  datatype Entry = Header(name: string) | Setting(key: string, value: string)

  /** What systemd makes of a line: nothing of an empty line or a comment. */
  function EntryOf(line: string): seq<Entry> {
    if line == "" || line[0] == '#' || line[0] == ';' then []
    else if line[0] == '[' then if |line| > 1 then [Header(line[1..|line| - 1])] else []
    else
      var eq := IndexByte(line, '=');
      if eq < 0 then [] else [Setting(line[..eq], line[eq + 1..])]
  }

  /** f of each element from index i on, one after the other. */
  function FlatFrom<S, T>(f: S -> seq<T>, s: seq<S>, i: nat): seq<T>
    decreases |s| - i
  {
    if i >= |s| then [] else f(s[i]) + FlatFrom(f, s, i + 1)
  }

  function EntriesFrom(lines: seq<string>, i: nat): seq<Entry> {
    FlatFrom(EntryOf, lines, i)
  }

  /** What systemd makes of a unit file. */
  function Interpreted(content: string): seq<Entry> {
    EntriesFrom(SystemdLines(content), 0)
  }

  lemma {:induction false} FlatTogether<S, T>(f: S -> seq<T>, x: seq<S>, y: seq<S>, i: nat)
    requires i <= |x|
    ensures FlatFrom(f, x + y, i) == FlatFrom(f, x, i) + FlatFrom(f, y, 0)
    decreases |x| - i
  {
    if i == |x| {
      FlatBehind(f, x, y, 0);
    } else {
      FlatTogether(f, x, y, i + 1);
    }
  }

  lemma {:induction false} FlatBehind<S, T>(f: S -> seq<T>, x: seq<S>, y: seq<S>, i: nat)
    requires i <= |y|
    ensures FlatFrom(f, x + y, |x| + i) == FlatFrom(f, y, i)
    decreases |y| - i
  {
    if i < |y| { FlatBehind(f, x, y, i + 1); }
  }

  function FlatAt<S, T>(f: S -> seq<T>, s: seq<S>, i: nat): seq<T> {
    if i < |s| then f(s[i]) else []
  }

  lemma FlatOfEight<S, T>(f: S -> seq<T>, s: seq<S>)
    requires |s| <= 8
    ensures FlatFrom(f, s, 0) ==
            FlatAt(f, s, 0) + (FlatAt(f, s, 1) + (FlatAt(f, s, 2) + (FlatAt(f, s, 3)
            + (FlatAt(f, s, 4) + (FlatAt(f, s, 5) + (FlatAt(f, s, 6) + (FlatAt(f, s, 7) + [])))))))
  {
    FlatNext(f, s, 0);
    FlatNext(f, s, 1);
    FlatNext(f, s, 2);
    FlatNext(f, s, 3);
    FlatNext(f, s, 4);
    FlatNext(f, s, 5);
    FlatNext(f, s, 6);
    FlatNext(f, s, 7);
    assert FlatFrom(f, s, 8) == [];
  }

  lemma FlatNext<S, T>(f: S -> seq<T>, s: seq<S>, i: nat)
    ensures FlatFrom(f, s, i) == FlatAt(f, s, i) + FlatFrom(f, s, i + 1)
  {
  }

  function EntryAt(lines: seq<string>, i: nat): seq<Entry> {
    if i < |lines| then EntryOf(lines[i]) else []
  }

  lemma EightEntries(s: seq<string>)
    requires |s| <= 8
    ensures EntriesFrom(s, 0) ==
            EntryAt(s, 0) + (EntryAt(s, 1) + (EntryAt(s, 2) + (EntryAt(s, 3)
            + (EntryAt(s, 4) + (EntryAt(s, 5) + (EntryAt(s, 6) + (EntryAt(s, 7) + [])))))))
  {
    FlatOfEight(EntryOf, s);
  }

  // ---- The unit file ------------------------------------------------------------------

  /** Go's integer division drops the fraction. */
  function MemoryHigh(memoryMaxMB: int): int {
    memoryMaxMB * 3 / 4
  }

  function EffectiveMemory(memoryMaxMB: int): int {
    if memoryMaxMB <= 0 then 512 else memoryMaxMB
  }

  /** The fields a caller puts into the unit. */
  datatype App = App(domain: string, systemUser: string, rootPath: string, command: string, port: int, memoryMaxMB: int)

  function Head(name: string): string {
    "[" + name + "]"
  }

  function Assign(key: string, value: string): string {
    key + "=" + value
  }

  function Comment(text: string): string {
    "# " + text
  }

  function Services(): seq<string> {
    ["network.target", "postgresql.service", "redis-server.service"]
  }

  function UnitSection(a: App): seq<string> {
    [Head("Unit"),
     Assign("Description", "SigardaPanel App: " + a.domain),
     Assign("After", JoinWith(Services(), ' ')),
     ""]
  }

  function ServiceSection(a: App): seq<string> {
    [Head("Service"),
     Assign("Type", "simple"),
     Assign("WorkingDirectory", a.rootPath),
     Assign("ExecStart", SHELL_COMMAND + SystemdQuote("exec " + a.command)),
     Assign("Restart", "always"),
     Assign("RestartSec", "5"),
     if a.systemUser == "" then "" else Assign("User", a.systemUser),
     Assign("EnvironmentFile", "-" + a.rootPath + "/.env")]
  }

  function BinDirectories(): seq<string> {
    ["/root/.hermes/node/bin", "/usr/local/bin", "/usr/bin", "/bin", "/usr/sbin", "/sbin"]
  }

  function EnvironmentLines(a: App): seq<string> {
    [Assign("Environment", "PORT=" + Decimal(a.port)),
     Assign("Environment", "NODE_ENV=production"),
     Assign("Environment", "PATH=" + JoinWith(BinDirectories(), ':'))]
  }

  function LimitLines(a: App): seq<string> {
    var memory := EffectiveMemory(a.memoryMaxMB);
    [Comment("Resource limits (hemat resource)"),
     Assign("MemoryMax", Decimal(memory) + "M"),
     Assign("MemoryHigh", Decimal(MemoryHigh(memory)) + "M"),
     Assign("CPUWeight", "50"),
     Assign("TasksMax", "256")]
  }

  function ClosingLines(): seq<string> {
    [Comment("Security hardening"),
     Assign("NoNewPrivileges", "true"),
     Assign("PrivateTmp", "true"),
     "",
     Head("Install"),
     Assign("WantedBy", "multi-user.target"),
     ""]
  }

  function UnitLines(a: App): seq<string> {
    UnitSection(a) + ServiceSection(a) + EnvironmentLines(a) + LimitLines(a) + ClosingLines()
  }

  function SystemdUnitContent(a: App): string {
    JoinWith(UnitLines(a), '\n')
  }

  // ---- No line more and none less -------------------------------------------------------

  lemma UpToEight(s: seq<string>)
    requires |s| <= 8
    ensures AllWhole(s) <==>
            && (|s| > 0 ==> Whole(s[0])) && (|s| > 1 ==> Whole(s[1])) && (|s| > 2 ==> Whole(s[2]))
            && (|s| > 3 ==> Whole(s[3])) && (|s| > 4 ==> Whole(s[4])) && (|s| > 5 ==> Whole(s[5]))
            && (|s| > 6 ==> Whole(s[6])) && (|s| > 7 ==> Whole(s[7]))
  {
  }

  lemma {:induction false} PlainList(names: seq<string>, sep: char)
    requires (forall i :: 0 <= i < |names| ==> Plain(names[i])) && !EndsLine(sep) && sep != '\\'
    ensures Plain(JoinWith(names, sep))
    decreases |names|
  {
    if |names| > 1 { PlainList(names[1..], sep); }
  }

  lemma AssignIff(key: string, value: string)
    requires Plain(key)
    ensures Whole(Assign(key, value)) <==> Whole(value)
  {
    PlainTogether(key, "=");
    WholeBehind(key + "=", value);
  }

  lemma AssignPlain(key: string, value: string)
    requires Plain(key) && Plain(value)
    ensures Whole(Assign(key, value))
  {
    AssignIff(key, value);
    PlainIsWhole(value);
  }

  lemma HeadIsWhole(name: string)
    requires Plain(name)
    ensures Whole(Head(name))
  {
    PlainTogether("[", name);
    PlainTogether("[" + name, "]");
    PlainIsWhole(Head(name));
  }

  lemma CommentIsWhole(text: string)
    requires Plain(text)
    ensures Whole(Comment(text))
  {
    PlainTogether("# ", text);
    PlainIsWhole(Comment(text));
  }

  lemma ServicesArePlain()
    ensures Plain(JoinWith(Services(), ' '))
  {
    assert Plain("network.target");
    assert Plain("postgresql.service");
    assert Plain("redis-server.service");
    PlainList(Services(), ' ');
  }

  lemma BinDirectoriesArePlain()
    ensures Plain(JoinWith(BinDirectories(), ':'))
  {
    assert Plain("/root/.hermes/node/bin");
    assert Plain("/usr/local/bin");
    assert Plain("/usr/bin") && Plain("/bin");
    assert Plain("/usr/sbin") && Plain("/sbin");
    PlainList(BinDirectories(), ':');
  }

  lemma DescriptionIff(domain: string)
    ensures Whole(Assign("Description", "SigardaPanel App: " + domain)) <==> Whole(domain)
  {
    AssignIff("Description", "SigardaPanel App: " + domain);
    WholeBehind("SigardaPanel App: ", domain);
  }

  lemma AfterIsWhole()
    ensures Whole(Assign("After", JoinWith(Services(), ' '))) && Whole("") && Whole(Head("Unit"))
  {
    ServicesArePlain();
    AssignPlain("After", JoinWith(Services(), ' '));
    PlainIsWhole("");
    HeadIsWhole("Unit");
  }

  lemma UnitSectionIff(a: App)
    ensures AllWhole(UnitSection(a)) <==> Whole(a.domain)
  {
    DescriptionIff(a.domain);
    AfterIsWhole();
    UpToEight(UnitSection(a));
  }

  lemma {:induction false} QuotedKeepsNul(s: string)
    ensures NUL in Substitute(s, QuoteChar) <==> NUL in s
    decreases |s|
  {
    if s != "" { QuotedKeepsNul(s[1..]); }
  }

  /** Only a NUL in the quoted text can end the line it stands on. */
  lemma QuotedLineIff(s: string)
    ensures OneLine(SystemdQuote(s)) <==> NUL !in s
  {
    QuotedStaysOnLine(s);
    QuotedKeepsNul(s);
    assert NUL in s ==> EndsLine(NUL) && NUL in SystemdQuote(s);
  }

  lemma ExecStartIff(command: string)
    ensures Whole(Assign("ExecStart", SHELL_COMMAND + SystemdQuote("exec " + command))) <==> NUL !in command
  {
    var quoted := SystemdQuote("exec " + command);
    QuotedLineIff("exec " + command);
    EndsInQuote("exec " + command);
    AssignIff("ExecStart", SHELL_COMMAND + quoted);
    WholeBehind(SHELL_COMMAND, quoted);
  }

  lemma EndsInQuote(s: string)
    ensures !GoesOn(SystemdQuote(s))
  {
  }

  lemma EnvironmentFileIff(path: string)
    ensures Whole(Assign("EnvironmentFile", "-" + path + "/.env")) <==> OneLine(path)
  {
    AssignIff("EnvironmentFile", "-" + path + "/.env");
    JoinedLine("-", path);
    JoinedLine("-" + path, "/.env");
    assert ("-" + path + "/.env")[|"-" + path + "/.env"| - 1] == 'v';
  }

  lemma UserLineIff(user: string)
    ensures Whole(if user == "" then "" else Assign("User", user)) <==> Whole(user)
  {
    AssignIff("User", user);
  }

  lemma DirectoryIff(path: string)
    ensures Whole(Assign("WorkingDirectory", path)) <==> Whole(path)
  {
    AssignIff("WorkingDirectory", path);
  }

  lemma ServiceIsFixed()
    ensures Whole(Head("Service")) && Whole(Assign("Type", "simple"))
    ensures Whole(Assign("Restart", "always")) && Whole(Assign("RestartSec", "5"))
  {
    HeadIsWhole("Service");
    AssignPlain("Type", "simple");
    AssignPlain("Restart", "always");
    AssignPlain("RestartSec", "5");
  }

  lemma ServiceSectionIff(a: App)
    ensures AllWhole(ServiceSection(a)) <==> NUL !in a.command && Whole(a.systemUser) && Whole(a.rootPath)
  {
    ExecStartIff(a.command);
    DirectoryIff(a.rootPath);
    EnvironmentFileIff(a.rootPath);
    UserLineIff(a.systemUser);
    ServiceIsFixed();
    UpToEight(ServiceSection(a));
  }

  lemma DecimalIsPlain(n: int)
    ensures Plain(Decimal(n))
  {
    assert forall i :: 0 <= i < |Decimal(n)| ==> Decimal(n)[i] in Decimal(n);
  }

  lemma PortIsWhole(port: int)
    ensures Whole(Assign("Environment", "PORT=" + Decimal(port)))
  {
    DecimalIsPlain(port);
    PlainTogether("PORT=", Decimal(port));
    AssignPlain("Environment", "PORT=" + Decimal(port));
  }

  lemma BehindPath(text: string)
    requires Plain(text)
    ensures Whole(Assign("Environment", "PATH=" + text))
  {
    PlainTogether("PATH=", text);
    AssignPlain("Environment", "PATH=" + text);
  }

  lemma PathIsWhole()
    ensures Whole(Assign("Environment", "PATH=" + JoinWith(BinDirectories(), ':')))
  {
    BinDirectoriesArePlain();
    BehindPath(JoinWith(BinDirectories(), ':'));
  }

  lemma NodeIsWhole()
    ensures Whole(Assign("Environment", "NODE_ENV=production"))
  {
    AssignPlain("Environment", "NODE_ENV=production");
  }

  lemma EnvironmentIsWhole(a: App)
    ensures AllWhole(EnvironmentLines(a))
  {
    PortIsWhole(a.port);
    NodeIsWhole();
    PathIsWhole();
    UpToEight(EnvironmentLines(a));
  }

  lemma SizeIsWhole(key: string, megabytes: int)
    requires Plain(key)
    ensures Whole(Assign(key, Decimal(megabytes) + "M"))
  {
    DecimalIsPlain(megabytes);
    PlainTogether(Decimal(megabytes), "M");
    AssignPlain(key, Decimal(megabytes) + "M");
  }

  lemma LimitsAreFixed()
    ensures Whole(Assign("CPUWeight", "50")) && Whole(Assign("TasksMax", "256"))
  {
    AssignPlain("CPUWeight", "50");
    AssignPlain("TasksMax", "256");
  }

  lemma LimitsComment()
    ensures Whole(Comment("Resource limits (hemat resource)"))
  {
    CommentIsWhole("Resource limits (hemat resource)");
  }

  lemma LimitsAreWhole(a: App)
    ensures AllWhole(LimitLines(a))
  {
    var memory := EffectiveMemory(a.memoryMaxMB);
    LimitsAreFixed();
    LimitsComment();
    SizeIsWhole("MemoryMax", memory);
    SizeIsWhole("MemoryHigh", MemoryHigh(memory));
    UpToEight(LimitLines(a));
  }

  lemma ClosingIsFixed()
    ensures Whole(Comment("Security hardening"))
    ensures Whole(Assign("NoNewPrivileges", "true")) && Whole(Assign("PrivateTmp", "true"))
  {
    CommentIsWhole("Security hardening");
    AssignPlain("NoNewPrivileges", "true");
    AssignPlain("PrivateTmp", "true");
  }

  lemma InstallIsFixed()
    ensures Whole("") && Whole(Head("Install")) && Whole(Assign("WantedBy", "multi-user.target"))
  {
    PlainIsWhole("");
    HeadIsWhole("Install");
    AssignPlain("WantedBy", "multi-user.target");
  }

  lemma ClosingIsWhole()
    ensures AllWhole(ClosingLines())
  {
    ClosingIsFixed();
    InstallIsFixed();
    UpToEight(ClosingLines());
  }

  lemma SectionsTogether(x: seq<string>, y: seq<string>)
    ensures AllWhole(x + y) <==> AllWhole(x) && AllWhole(y)
  {
    assert forall i :: 0 <= i < |x| ==> (x + y)[i] == x[i];
    assert forall i :: 0 <= i < |y| ==> (x + y)[|x| + i] == y[i];
  }

  lemma AllWholeIff(a: App)
    ensures AllWhole(UnitLines(a)) <==> NUL !in a.command && Whole(a.domain) && Whole(a.systemUser) && Whole(a.rootPath)
  {
    UnitSectionIff(a);
    ServiceSectionIff(a);
    EnvironmentIsWhole(a);
    LimitsAreWhole(a);
    ClosingIsWhole();
    SectionsTogether(UnitSection(a), ServiceSection(a));
    SectionsTogether(UnitSection(a) + ServiceSection(a), EnvironmentLines(a));
    SectionsTogether(UnitSection(a) + ServiceSection(a) + EnvironmentLines(a), LimitLines(a));
    SectionsTogether(UnitSection(a) + ServiceSection(a) + EnvironmentLines(a) + LimitLines(a), ClosingLines());
  }

  /** Lines whose last is empty are read back exactly when each is one line and does not go on. */
  lemma ReadBackIff(lines: seq<string>)
    requires lines != [] && lines[|lines| - 1] == ""
    ensures SystemdLines(JoinWith(lines, '\n')) == lines <==> AllWhole(lines)
  {
    var read := ReadLines(JoinWith(lines, '\n'));
    JoinedAreLines(read);
    JoinedSameIff(lines);
    if AllLines(lines) { LinesJoined(lines); }
  }

  /** systemd interprets exactly the lines that were meant, so that nothing a caller sends
      adds a directive or swallows one, exactly when the command has no NUL and no other
      field ends a line or ends in a backslash that makes its line go on; line breaks and
      backslashes in the command do no harm. */
  lemma UnitHasNoExtraLines(a: App)
    ensures SystemdLines(SystemdUnitContent(a)) == UnitLines(a)
            <==> NUL !in a.command && Whole(a.domain) && Whole(a.systemUser) && Whole(a.rootPath)
  {
    AllWholeIff(a);
    ReadBackIff(UnitLines(a));
  }

  // ---- What the unit says ---------------------------------------------------------------

  predicate IsKey(s: string) {
    s != "" && s[0] != '#' && s[0] != ';' && s[0] != '[' && '=' !in s
  }

  lemma EntryOfAssign(key: string, value: string)
    requires IsKey(key)
    ensures EntryOf(Assign(key, value)) == [Setting(key, value)]
  {
    var line := Assign(key, value);
    assert line[0] == key[0] && line[|key|] == '=';
    assert forall i :: 0 <= i < |key| ==> line[i] == key[i] && key[i] in key;
    assert IndexByte(line, '=') == |key|;
    assert line[..|key|] == key && line[|key| + 1..] == value;
  }

  lemma EntryOfHead(name: string)
    ensures EntryOf(Head(name)) == [Header(name)]
  {
    var line := Head(name);
    assert line[1..|line| - 1] == name;
  }

  lemma EntryOfComment(text: string)
    ensures EntryOf(Comment(text)) == []
  {
  }

  lemma UnitSectionSays(a: App)
    ensures EntriesFrom(UnitSection(a), 0) ==
            [Header("Unit"), Setting("Description", "SigardaPanel App: " + a.domain),
             Setting("After", JoinWith(["network.target", "postgresql.service", "redis-server.service"], ' '))]
  {
    EightEntries(UnitSection(a));
    EntryOfHead("Unit");
    EntryOfAssign("Description", "SigardaPanel App: " + a.domain);
    EntryOfAssign("After", JoinWith(Services(), ' '));
  }

  lemma ServiceKeys()
    ensures IsKey("Type") && IsKey("WorkingDirectory") && IsKey("ExecStart")
    ensures IsKey("Restart") && IsKey("RestartSec") && IsKey("User")
  {
  }

  lemma EnvironmentKeys()
    ensures IsKey("EnvironmentFile") && IsKey("Environment")
  {
  }

  lemma EightInOrder<T>(a: T, b: T, c: T, d: T, e: T, f: T, y: seq<T>, z: T)
    ensures [a] + ([b] + ([c] + ([d] + ([e] + ([f] + (y + ([z] + []))))))) == [a, b, c, d, e, f] + (y + [z])
  {
  }

  lemma ServiceSectionSays(a: App)
    ensures EntriesFrom(ServiceSection(a), 0) ==
            [Header("Service"), Setting("Type", "simple"), Setting("WorkingDirectory", a.rootPath),
             Setting("ExecStart", "/bin/sh -lc " + SystemdQuote("exec " + a.command)),
             Setting("Restart", "always"), Setting("RestartSec", "5")]
            + ((if a.systemUser == "" then [] else [Setting("User", a.systemUser)])
               + [Setting("EnvironmentFile", "-" + a.rootPath + "/.env")])
  {
    var command := SHELL_COMMAND + SystemdQuote("exec " + a.command);
    EightEntries(ServiceSection(a));
    ServiceKeys();
    EnvironmentKeys();
    EntryOfHead("Service");
    EntryOfAssign("Type", "simple");
    EntryOfAssign("WorkingDirectory", a.rootPath);
    EntryOfAssign("ExecStart", command);
    EntryOfAssign("Restart", "always");
    EntryOfAssign("RestartSec", "5");
    EntryOfAssign("User", a.systemUser);
    EntryOfAssign("EnvironmentFile", "-" + a.rootPath + "/.env");
    EightInOrder(Header("Service"), Setting("Type", "simple"), Setting("WorkingDirectory", a.rootPath),
                 Setting("ExecStart", command), Setting("Restart", "always"), Setting("RestartSec", "5"),
                 if a.systemUser == "" then [] else [Setting("User", a.systemUser)],
                 Setting("EnvironmentFile", "-" + a.rootPath + "/.env"));
  }

  lemma ThreeInOrder<T>(a: T, b: T, c: T)
    ensures [a] + ([b] + ([c] + ([] + ([] + ([] + ([] + ([] + []))))))) == [a, b, c]
  {
  }

  lemma EnvironmentSays(a: App)
    ensures EntriesFrom(EnvironmentLines(a), 0) ==
            [Setting("Environment", "PORT=" + Decimal(a.port)), Setting("Environment", "NODE_ENV=production"),
             Setting("Environment", "PATH=" + JoinWith(BinDirectories(), ':'))]
  {
    var port, node := "PORT=" + Decimal(a.port), "NODE_ENV=production";
    var path := "PATH=" + JoinWith(BinDirectories(), ':');
    EightEntries(EnvironmentLines(a));
    EnvironmentKeys();
    EntryOfAssign("Environment", port);
    EntryOfAssign("Environment", node);
    EntryOfAssign("Environment", path);
    ThreeInOrder(Setting("Environment", port), Setting("Environment", node), Setting("Environment", path));
  }

  lemma MemoryKeys()
    ensures IsKey("MemoryMax") && IsKey("MemoryHigh")
  {
  }

  lemma LimitKeys()
    ensures IsKey("CPUWeight") && IsKey("TasksMax")
  {
  }

  lemma FourInOrder<T>(a: T, b: T, c: T, d: T)
    ensures [] + ([a] + ([b] + ([c] + ([d] + ([] + ([] + ([] + []))))))) == [a, b, c, d]
    ensures [] + ([a] + ([b] + ([] + ([c] + ([d] + ([] + ([] + []))))))) == [a, b, c, d]
  {
  }

  lemma LimitsSay(a: App)
    ensures var memory := if a.memoryMaxMB <= 0 then 512 else a.memoryMaxMB;
            EntriesFrom(LimitLines(a), 0) ==
            [Setting("MemoryMax", Decimal(memory) + "M"), Setting("MemoryHigh", Decimal(memory * 3 / 4) + "M"),
             Setting("CPUWeight", "50"), Setting("TasksMax", "256")]
  {
    var memory := EffectiveMemory(a.memoryMaxMB);
    var most, high := Decimal(memory) + "M", Decimal(MemoryHigh(memory)) + "M";
    EightEntries(LimitLines(a));
    MemoryKeys();
    LimitKeys();
    EntryOfComment("Resource limits (hemat resource)");
    EntryOfAssign("MemoryMax", most);
    EntryOfAssign("MemoryHigh", high);
    EntryOfAssign("CPUWeight", "50");
    EntryOfAssign("TasksMax", "256");
    FourInOrder(Setting("MemoryMax", most), Setting("MemoryHigh", high), Setting("CPUWeight", "50"),
                Setting("TasksMax", "256"));
  }

  lemma HardeningKeys()
    ensures IsKey("NoNewPrivileges") && IsKey("PrivateTmp")
  {
  }

  lemma ClosingSays()
    ensures EntriesFrom(ClosingLines(), 0) ==
            [Setting("NoNewPrivileges", "true"), Setting("PrivateTmp", "true"), Header("Install"),
             Setting("WantedBy", "multi-user.target")]
  {
    EightEntries(ClosingLines());
    HardeningKeys();
    EntryOfComment("Security hardening");
    EntryOfAssign("NoNewPrivileges", "true");
    EntryOfAssign("PrivateTmp", "true");
    EntryOfHead("Install");
    EntryOfAssign("WantedBy", "multi-user.target");
    FourInOrder(Setting("NoNewPrivileges", "true"), Setting("PrivateTmp", "true"), Header("Install"),
                Setting("WantedBy", "multi-user.target"));
  }

  /** What systemd reads in the unit of an app whose fields are as they should be: section by
      section each setting with its value. */
  lemma UnitSays(a: App)
    requires NUL !in a.command && Whole(a.domain) && Whole(a.systemUser) && Whole(a.rootPath)
    ensures var memory := if a.memoryMaxMB <= 0 then 512 else a.memoryMaxMB;
            Interpreted(SystemdUnitContent(a)) ==
            [Header("Unit"), Setting("Description", "SigardaPanel App: " + a.domain),
             Setting("After", JoinWith(["network.target", "postgresql.service", "redis-server.service"], ' '))]
            + ([Header("Service"), Setting("Type", "simple"), Setting("WorkingDirectory", a.rootPath),
                Setting("ExecStart", "/bin/sh -lc " + SystemdQuote("exec " + a.command)),
                Setting("Restart", "always"), Setting("RestartSec", "5")]
               + ((if a.systemUser == "" then [] else [Setting("User", a.systemUser)])
                  + [Setting("EnvironmentFile", "-" + a.rootPath + "/.env")]))
            + [Setting("Environment", "PORT=" + Decimal(a.port)), Setting("Environment", "NODE_ENV=production"),
               Setting("Environment", "PATH=" + JoinWith(BinDirectories(), ':'))]
            + [Setting("MemoryMax", Decimal(memory) + "M"), Setting("MemoryHigh", Decimal(memory * 3 / 4) + "M"),
               Setting("CPUWeight", "50"), Setting("TasksMax", "256")]
            + [Setting("NoNewPrivileges", "true"), Setting("PrivateTmp", "true"), Header("Install"),
               Setting("WantedBy", "multi-user.target")]
  {
    UnitHasNoExtraLines(a);
    SectionsSay(UnitSection(a), ServiceSection(a), EnvironmentLines(a), LimitLines(a), ClosingLines());
    UnitSectionSays(a);
    ServiceSectionSays(a);
    EnvironmentSays(a);
    LimitsSay(a);
    ClosingSays();
  }

  lemma SectionsSay(u: seq<string>, s: seq<string>, e: seq<string>, l: seq<string>, c: seq<string>)
    ensures EntriesFrom(u + s + e + l + c, 0) ==
            EntriesFrom(u, 0) + EntriesFrom(s, 0) + EntriesFrom(e, 0) + EntriesFrom(l, 0) + EntriesFrom(c, 0)
  {
    FlatTogether(EntryOf, u, s, 0);
    FlatTogether(EntryOf, u + s, e, 0);
    FlatTogether(EntryOf, u + s + e, l, 0);
    FlatTogether(EntryOf, u + s + e + l, c, 0);
  }

  /** In particular the process that is started is the shell with the command behind "exec ",
      and the memory limits are the numbers they were set to. */
  lemma UnitStarts(a: App)
    requires NUL !in a.command && Whole(a.domain) && Whole(a.systemUser) && Whole(a.rootPath)
    ensures exists value :: Setting("ExecStart", value) in Interpreted(SystemdUnitContent(a))
                            && Arguments(value) == Some(["/bin/sh", "-lc", "exec " + a.command])
    ensures var memory := if a.memoryMaxMB <= 0 then 512 else a.memoryMaxMB;
            Value(Decimal(memory)) == memory && Value(Decimal(memory * 3 / 4)) == memory * 3 / 4
  {
    var value := SHELL_COMMAND + SystemdQuote("exec " + a.command);
    UnitSays(a);
    ExecStartArguments(a.command);
    assert Setting("ExecStart", value) in Interpreted(SystemdUnitContent(a));
    DecimalSays(EffectiveMemory(a.memoryMaxMB));
    DecimalSays(MemoryHigh(EffectiveMemory(a.memoryMaxMB)));
  }
}
