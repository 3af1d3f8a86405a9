/** Reading one line of lsblk -P output (system_spec.go, parseLsblkKV). */
module Lsblk {
  import opened Strings

  type Pair = (string, string)

  /** The map after storing the pairs one after another. */
  function StoreAll(m: map<string, string>, pairs: seq<Pair>): map<string, string>
    decreases |pairs|
  {
    if pairs == [] then m else StoreAll(m[pairs[0].0 := pairs[0].1], pairs[1..])
  }

  function LastWins(pairs: seq<Pair>): map<string, string> {
    StoreAll(map[], pairs)
  }

  lemma {:induction false} StoredStays(m: map<string, string>, pairs: seq<Pair>, key: string)
    requires key in m && forall j :: 0 <= j < |pairs| ==> pairs[j].0 != key
    ensures key in StoreAll(m, pairs) && StoreAll(m, pairs)[key] == m[key]
    decreases |pairs|
  {
    if pairs != [] { StoredStays(m[pairs[0].0 := pairs[0].1], pairs[1..], key); }
  }

  lemma {:induction false} LastStored(m: map<string, string>, pairs: seq<Pair>, i: nat)
    requires i < |pairs| && forall j :: i < j < |pairs| ==> pairs[j].0 != pairs[i].0
    ensures pairs[i].0 in StoreAll(m, pairs) && StoreAll(m, pairs)[pairs[i].0] == pairs[i].1
    decreases |pairs|
  {
    var next := m[pairs[0].0 := pairs[0].1];
    if i == 0 { StoredStays(next, pairs[1..], pairs[0].0); } else { LastStored(next, pairs[1..], i - 1); }
  }

  /** A key has the value of its last pair. */
  lemma LastPairWins(pairs: seq<Pair>, i: nat)
    requires i < |pairs| && forall j :: i < j < |pairs| ==> pairs[j].0 != pairs[i].0
    ensures pairs[i].0 in LastWins(pairs) && LastWins(pairs)[pairs[i].0] == pairs[i].1
  {
    LastStored(map[], pairs, i);
  }

  /** What one turn of the loop reads: nothing, a last pair, or a pair and the rest of the line. */
  datatype Turn = Nothing | Last(pair: Pair) | More(pair: Pair, rest: string)

  function NextPair(t: string): (r: Turn)
    ensures r.More? ==> |r.rest| < |t|
  {
    var eq := IndexByte(t, '=');
    if eq <= 0 then Nothing else Value(t[..eq], t[eq + 1..])
  }

  function Value(key: string, v: string): (r: Turn)
    ensures r.More? ==> |r.rest| <= |v|
  {
    if v != "" && v[0] == '"' then
      var end := IndexByte(v[1..], '"');
      if end < 0 then Last((key, v[1..])) else More((key, v[1..][..end]), v[1..][end + 1..])
    else
      var end := IndexByte(v, ' ');
      if end < 0 then Last((key, v)) else More((key, v[..end]), v[end..])
  }

  /** The pairs read from a line, in order. */
  function Fields(line: string): seq<Pair> {
    ReadTrimmed(TrimSpace(line))
  }

  function ReadTrimmed(t: string): seq<Pair>
    decreases |t|
  {
    match NextPair(t)
    case Nothing => []
    case Last(pair) => [pair]
    case More(pair, rest) => [pair] + ReadTrimmed(TrimSpace(rest))
  }

  /** The map once a turn has read what it reads. */
  function AfterTurn(m: map<string, string>, turn: Turn): map<string, string> {
    match turn
    case Nothing => m
    case Last(pair) => m[pair.0 := pair.1]
    case More(pair, rest) => StoreAll(m[pair.0 := pair.1], Fields(rest))
  }

  lemma StoreFirst(m: map<string, string>, pair: Pair, rest: seq<Pair>)
    ensures StoreAll(m, [pair] + rest) == StoreAll(m[pair.0 := pair.1], rest)
  {
    assert ([pair] + rest)[1..] == rest;
  }

  lemma StoreTurn(m: map<string, string>, t: string)
    ensures StoreAll(m, ReadTrimmed(t)) == AfterTurn(m, NextPair(t))
  {
    match NextPair(t)
    case Nothing =>
    case Last(pair) =>
      StoreFirst(m, pair, []);
      assert [pair] + [] == [pair];
    case More(pair, rest) =>
      StoreFirst(m, pair, Fields(rest));
  }

  lemma StoreValue(m: map<string, string>, t: string, eq: int)
    requires eq == IndexByte(t, '=')
    ensures StoreAll(m, ReadTrimmed(t)) == if eq <= 0 then m else AfterTurn(m, Value(t[..eq], t[eq + 1..]))
  {
    StoreTurn(m, t);
  }

  method Parse(input: string) returns (result: map<string, string>)
    ensures result == LastWins(Fields(input))
  {
    result := map[];
    var line := input;
    while |TrimSpace(line)| > 0
      invariant StoreAll(result, Fields(line)) == LastWins(Fields(input))
      decreases |line|
    {
      line := TrimSpace(line);
      var eq := IndexByte(line, '=');
      StoreValue(result, line, eq);
      if eq <= 0 { break; }
      var key := line[..eq];
      line := line[eq + 1..];
      if line != "" && line[0] == '"' {
        line := line[1..];
        var end := IndexByte(line, '"');
        if end < 0 {
          result := result[key := line];
          break;
        }
        result := result[key := line[..end]];
        line := line[end + 1..];
      } else {
        var end := IndexByte(line, ' ');
        if end < 0 {
          result := result[key := line];
          break;
        }
        result := result[key := line[..end]];
        line := line[end..];
      }
    }
  }

  lemma FirstAt(a: string, c: char, b: string)
    requires c !in a
    ensures IndexByte(a + [c] + b, c) == |a|
  {
    assert (a + [c] + b)[|a|] == c;
    assert forall i :: 0 <= i < |a| ==> (a + [c] + b)[i] == a[i];
  }

  lemma Regroup<T>(a: seq<T>, b: seq<T>, c: seq<T>)
    ensures a + b + c == a + (b + c)
  {}

  // ---- Trimming ---------------------------------------------------------------

  predicate Blank(s: string) {
    forall i :: 0 <= i < |s| ==> IsSpace(s[i])
  }

  predicate SpaceFree(s: string) {
    forall i :: 0 <= i < |s| ==> !IsSpace(s[i])
  }

  lemma {:induction false} TrimLeftBlank(w: string, s: string)
    requires Blank(w)
    ensures TrimLeft(w + s) == TrimLeft(s)
    decreases |w|
  {
    if w == "" {
      assert w + s == s;
    } else {
      assert (w + s)[1..] == w[1..] + s;
      TrimLeftBlank(w[1..], s);
    }
  }

  lemma {:induction false} TrimRightAfter(a: string, b: string)
    requires a != "" && !IsSpace(a[|a| - 1])
    ensures TrimRight(a + b) == a + TrimRight(b)
    decreases |b|
  {
    if b == "" {
      assert a + b == a;
    } else {
      assert (a + b)[..|a + b| - 1] == a + b[..|b| - 1];
      if IsSpace(b[|b| - 1]) { TrimRightAfter(a, b[..|b| - 1]); }
    }
  }

  lemma {:induction false} TrimRightBlank(s: string)
    ensures TrimRight(s) == "" <==> Blank(s)
    decreases |s|
  {
    if s != "" {
      TrimRightBlank(s[..|s| - 1]);
      assert s == s[..|s| - 1] + [s[|s| - 1]];
    }
  }

  lemma {:induction false} TrimRightKeeps(c: char, s: string)
    requires TrimRight(s) != ""
    ensures TrimRight([c] + s) == [c] + TrimRight(s)
    decreases |s|
  {
    assert ([c] + s)[..|s|] == [c] + s[..|s| - 1];
    if IsSpace(s[|s| - 1]) { TrimRightKeeps(c, s[..|s| - 1]); }
  }

  lemma TrimsCommuteAtSpace(c: char, s: string)
    requires IsSpace(c) && TrimLeft(TrimRight(s)) == TrimRight(TrimLeft(s))
    ensures TrimLeft(TrimRight([c] + s)) == TrimRight(TrimLeft([c] + s))
  {
    assert ([c] + s)[1..] == s;
    if TrimRight(s) == "" {
      TrimRightBlank(s);
      TrimRightBlank([c] + s);
    } else {
      TrimRightKeeps(c, s);
      assert ([c] + TrimRight(s))[1..] == TrimRight(s);
    }
  }

  lemma {:induction false} TrimsCommute(s: string)
    ensures TrimLeft(TrimRight(s)) == TrimRight(TrimLeft(s))
    decreases |s|
  {
    if s != "" {
      assert s == [s[0]] + s[1..];
      if IsSpace(s[0]) {
        TrimsCommute(s[1..]);
        TrimsCommuteAtSpace(s[0], s[1..]);
      } else {
        TrimRightAfter([s[0]], s[1..]);
      }
    }
  }

  lemma {:induction false} TrimRightTwice(s: string)
    ensures TrimRight(TrimRight(s)) == TrimRight(s)
    decreases |s|
  {
    if s != "" && IsSpace(s[|s| - 1]) { TrimRightTwice(s[..|s| - 1]); }
  }

  lemma {:induction false} TrimRightIsPrefix(s: string)
    ensures TrimRight(s) <= s
    decreases |s|
  {
    if s != "" && IsSpace(s[|s| - 1]) { TrimRightIsPrefix(s[..|s| - 1]); }
  }

  lemma {:induction false} TrimLeftWithin(s: string, c: char)
    requires c !in s
    ensures c !in TrimLeft(s)
    decreases |s|
  {
    if s != "" && IsSpace(s[0]) { TrimLeftWithin(s[1..], c); }
  }

  lemma TrimIgnoresEnds(w: string, s: string)
    requires Blank(w)
    ensures TrimSpace(w + s) == TrimSpace(s)
    ensures TrimSpace(TrimRight(s)) == TrimSpace(s)
  {
    TrimLeftBlank(w, s);
    TrimsCommute(s);
    TrimRightTwice(TrimLeft(s));
  }

  /** White space at either end of a line does not matter. */
  lemma FieldsIgnoreEnds(w: string, s: string)
    requires Blank(w)
    ensures Fields(w + s) == Fields(s)
    ensures Fields(TrimRight(s)) == Fields(s)
  {
    TrimIgnoresEnds(w, s);
  }

  lemma TrimAround(a: string, rest: string)
    requires a != "" && !IsSpace(a[0]) && !IsSpace(a[|a| - 1])
    ensures TrimSpace(a + rest) == a + TrimRight(rest)
  {
    TrimRightAfter(a, rest);
    assert (a + rest)[0] == a[0];
  }

  lemma SplitAtEquals(line: string, key: string, v: string)
    requires TrimSpace(line) == key + "=" + v && key != "" && '=' !in key
    ensures NextPair(TrimSpace(line)) == Value(key, v)
  {
    var t := key + "=" + v;
    FirstAt(key, '=', v);
    assert t[..|key|] == key && t[|key| + 1..] == v;
  }

  // ---- What lsblk prints ------------------------------------------------------------

  /** One KEY="value" or KEY=value, and the white space printed after it. */
  datatype Item = Item(key: string, value: string, quoted: bool, gap: string)

  function Written(item: Item): string {
    if item.quoted then "\"" + item.value + "\"" else item.value
  }

  function Shown(item: Item): string {
    item.key + "=" + Written(item)
  }

  predicate Printable(item: Item) {
    && item.key != "" && !IsSpace(item.key[0]) && '=' !in item.key
    && Blank(item.gap)
    && (item.quoted ==> '"' !in item.value)
    && (!item.quoted ==> SpaceFree(item.value) && (item.value != "" ==> item.value[0] != '"'))
  }

  /** A bare value ends at a space: it needs one before whatever follows. */
  predicate Separated(item: Item, rest: string) {
    item.quoted || (if item.gap != "" then item.gap[0] == ' ' else rest == "")
  }

  function Rendered(items: seq<Item>, tail: string): string {
    if items == [] then tail else Shown(items[0]) + items[0].gap + Rendered(items[1..], tail)
  }

  ghost predicate Legible(items: seq<Item>, tail: string) {
    forall i :: 0 <= i < |items| ==> Printable(items[i]) && Separated(items[i], Rendered(items[i + 1..], tail))
  }

  function PairsOf(items: seq<Item>): seq<Pair> {
    if items == [] then [] else [(items[0].key, items[0].value)] + PairsOf(items[1..])
  }

  lemma ShownEnds(item: Item)
    requires Printable(item)
    ensures var a := Shown(item); a != "" && !IsSpace(a[0]) && !IsSpace(a[|a| - 1])
  {
    var a := Shown(item);
    assert a[0] == item.key[0];
    assert a[|a| - 1] == if item.quoted then '"' else if item.value == "" then '=' else item.value[|item.value| - 1];
  }

  lemma ItemSplits(item: Item, rest: string)
    requires Printable(item)
    ensures NextPair(TrimSpace(Shown(item) + rest)) == Value(item.key, Written(item) + TrimRight(rest))
  {
    ShownEnds(item);
    TrimAround(Shown(item), rest);
    Regroup(item.key + "=", Written(item), TrimRight(rest));
    SplitAtEquals(Shown(item) + rest, item.key, Written(item) + TrimRight(rest));
  }

  lemma QuotedValue(key: string, value: string, rest: string)
    requires '"' !in value
    ensures Value(key, "\"" + value + "\"" + rest) == More((key, value), rest)
  {
    var v := "\"" + value + "\"" + rest;
    assert v[0] == '"' && v[1..] == value + "\"" + rest;
    FirstAt(value, '"', rest);
    assert v[1..][..|value|] == value && v[1..][|value| + 1..] == rest;
  }

  lemma BareValue(key: string, value: string, rest: string)
    requires ' ' !in value && (value != "" ==> value[0] != '"')
    requires rest != "" ==> rest[0] == ' '
    ensures Value(key, value + rest) == if rest == "" then Last((key, value)) else More((key, value), rest)
  {
    if rest == "" {
      assert value + rest == value;
    } else {
      var v := value + [' '] + rest[1..];
      assert v == value + rest;
      FirstAt(value, ' ', rest[1..]);
      assert v[..|value|] == value && v[|value|..] == rest;
      assert v[0] != '"';
    }
  }

  /** One printed item is read as its pair, and reading goes on after it. */
  lemma ItemReadBack(item: Item, rest: string)
    requires Printable(item) && Separated(item, rest)
    ensures Fields(Shown(item) + item.gap + rest) == [(item.key, item.value)] + Fields(rest)
  {
    var after := item.gap + rest;
    Regroup(Shown(item), item.gap, rest);
    ItemSplits(item, after);
    FieldsIgnoreEnds("", after);
    FieldsIgnoreEnds(item.gap, rest);
    var kept := TrimRight(after);
    if item.quoted {
      QuotedValue(item.key, item.value, kept);
    } else {
      assert kept <= after by { TrimRightIsPrefix(after); }
      BareValue(item.key, item.value, kept);
    }
  }

  lemma LegibleRest(items: seq<Item>, tail: string)
    requires items != [] && Legible(items, tail)
    ensures Printable(items[0]) && Separated(items[0], Rendered(items[1..], tail))
    ensures Legible(items[1..], tail)
  {
    assert Separated(items[0], Rendered(items[0 + 1..], tail));
    var more := items[1..];
    forall i | 0 <= i < |more| ensures Printable(more[i]) && Separated(more[i], Rendered(more[i + 1..], tail)) {
      assert more[i] == items[i + 1] && more[i + 1..] == items[i + 1 + 1..];
    }
  }

  /** A printed line is read back as the pairs printed, in order, followed by whatever its tail gives: the
      values are quoted or bare, the white space between them is any. */
  lemma {:induction false} LineReadBack(items: seq<Item>, tail: string)
    requires Legible(items, tail)
    ensures Fields(Rendered(items, tail)) == PairsOf(items) + Fields(tail)
    decreases |items|
  {
    if items == [] {
      assert PairsOf(items) + Fields(tail) == Fields(tail);
    } else {
      LegibleRest(items, tail);
      ItemReadBack(items[0], Rendered(items[1..], tail));
      LineReadBack(items[1..], tail);
      Regroup([(items[0].key, items[0].value)], PairsOf(items[1..]), Fields(tail));
    }
  }

  /** The round trip: the KEY="value" rendering, each pair followed by any number of spaces, is read back as
      the last-wins map of the pairs. */
  lemma {:induction false} RoundTrip(items: seq<Item>)
    requires forall i :: 0 <= i < |items| ==> Printable(items[i]) && items[i].quoted
    ensures LastWins(Fields(Rendered(items, ""))) == LastWins(PairsOf(items))
  {
    LineReadBack(items, "");
    assert PairsOf(items) + Fields("") == PairsOf(items);
  }

  /** A tail with no equals sign, or with one in front, is dropped without disturbing what came before. */
  lemma StrayTailIsDropped(items: seq<Item>, tail: string)
    requires Legible(items, tail)
    requires '=' !in tail || "=" <= TrimLeft(tail)
    ensures Fields(Rendered(items, tail)) == PairsOf(items)
  {
    LineReadBack(items, tail);
    StrayTail(tail);
    assert PairsOf(items) + [] == PairsOf(items);
  }

  lemma StrayTail(tail: string)
    requires '=' !in tail || "=" <= TrimLeft(tail)
    ensures Fields(tail) == []
  {
    var left := TrimLeft(tail);
    if '=' !in tail {
      TrimLeftWithin(tail, '=');
      TrimRightIsPrefix(left);
    } else {
      assert left == "=" + left[1..];
      TrimRightAfter("=", left[1..]);
      FirstAt("", '=', TrimRight(left[1..]));
    }
  }

  lemma UnclosedValue(key: string, value: string)
    requires '"' !in value
    ensures Value(key, "\"" + value) == Last((key, value))
  {
    assert ("\"" + value)[1..] == value;
  }

  lemma UnclosedTail(key: string, value: string)
    requires key != "" && !IsSpace(key[0]) && '=' !in key && '"' !in value
    ensures Fields(key + "=" + "\"" + value) == [(key, TrimRight(value))]
  {
    var head, kept := key + "=" + "\"", TrimRight(value);
    assert head[0] == key[0];
    TrimAround(head, value);
    Regroup(key + "=", "\"", kept);
    SplitAtEquals(head + value, key, "\"" + kept);
    TrimRightIsPrefix(value);
    UnclosedValue(key, kept);
  }

  /** A last value whose closing quote is missing is read to the end of the line, less its trailing white space. */
  lemma UnclosedQuote(items: seq<Item>, key: string, value: string)
    requires Legible(items, key + "=" + "\"" + value)
    requires key != "" && !IsSpace(key[0]) && '=' !in key && '"' !in value
    ensures Fields(Rendered(items, key + "=" + "\"" + value)) == PairsOf(items) + [(key, TrimRight(value))]
  {
    LineReadBack(items, key + "=" + "\"" + value);
    UnclosedTail(key, value);
  }
}
