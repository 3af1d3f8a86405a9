/** The bounded replay buffer of a terminal session, filled by the reader and
    emptied on reattach. Bytes are told apart by their position in the output. */
module ReplayBuffer {
  import opened Options

  const PENDING_CAP: nat := 65536

  function LastN<T>(s: seq<T>, n: nat): (r: seq<T>)
    ensures |r| <= n
  {
    if |s| > n then s[|s| - n..] else s
  }

  function Dropped<T>(s: seq<T>, n: nat): seq<T> {
    if |s| > n then s[..|s| - n] else []
  }

  /** What buffering data leaves pending. */
  function Buffered<T>(pending: seq<T>, data: seq<T>): seq<T> {
    LastN(pending + data, PENDING_CAP)
  }

  lemma LastOfLast<T>(s: seq<T>, data: seq<T>, n: nat)
    ensures LastN(LastN(s, n) + data, n) == LastN(s + data, n)
  {
    if |s| > n {
      assert LastN(s, n) + data == (s + data)[|s| - n..];
      assert |LastN(s, n) + data| == n + |data|;
      assert (s + data)[|s| - n..][|data|..] == (s + data)[|s| - n + |data|..];
    }
  }

  lemma SplitLast<T>(s: seq<T>, n: nat)
    ensures Dropped(s, n) + LastN(s, n) == s
  {
  }

  /** The fields of ptySession that the buffer is about; `since` is everything
      buffered since the last flush. */
  class Session<T> {
    var ws: Option<nat>
    var pending: seq<T>
    ghost var since: seq<T>

    ghost predicate Valid()
      reads this
    {
      pending == LastN(since, PENDING_CAP)
    }

    constructor (ws: nat)
      ensures Valid() && this.ws == Some(ws) && pending == [] && since == []
    {
      this.ws, pending, since := Some(ws), [], [];
    }

    /** The reader's critical section: append, and keep the last 65536 bytes. */
    method Buffer(data: seq<T>)
      requires Valid()
      modifies this`pending, this`since
      ensures Valid() && since == old(since) + data && |pending| == if |since| <= 65536 then |since| else 65536
      ensures pending == Buffered(old(pending), data)
    {
      LastOfLast(since, data, PENDING_CAP);
      since := since + data;
      pending := pending + data;
      if |pending| > PENDING_CAP { pending := pending[|pending| - PENDING_CAP..]; }
    }

    /** The reattach's critical section: take what is pending, for one write. */
    method Take() returns (flushed: seq<T>)
      requires Valid()
      modifies this`pending, this`since
      ensures Valid() && flushed == old(pending) == LastN(old(since), PENDING_CAP) && pending == [] && since == []
    {
      flushed := pending;
      if |pending| > 0 { pending := []; }
      since := [];
    }

    method Attach(ws: nat)
      requires Valid()
      modifies this`ws
      ensures Valid() && this.ws == Some(ws)
    {
      this.ws := Some(ws);
    }
  }

  // ---- Reader and reattach, interleaved ---------------------------------------

  /** Where the reader is: waiting for output, holding a chunk, or with the chunk
      and the websocket it loaded. */
  datatype Reader = Waiting | Holding(data: seq<nat>) | Aimed(data: seq<nat>, to: Option<nat>)

  /** `flushing` are chunks taken by reattaches and not yet written; `sent` is what
      was handed to websocket writes, in order; `trimmed` was pushed out. */
  datatype State = State(
    read: nat, reader: Reader, ws: Option<nat>, pending: seq<nat>, since: seq<nat>,
    flushing: seq<seq<nat>>, sent: seq<nat>, trimmed: seq<nat>)

  datatype Action =
    | Read(n: nat)       // n bytes arrive from the PTY
    | Load               // the reader looks up the websocket
    | Deliver            // its write succeeds
    | Keep               // its write fails, or there is no websocket: buffer
    | Attach(ws: nat)    // a reattach swaps the websocket ...
    | Take               // ... takes the pending bytes ...
    | Flush(i: nat)      // ... and writes them

  function Positions(from: nat, n: nat): (r: seq<nat>)
    ensures |r| == n && forall i :: 0 <= i < n ==> r[i] == from + i
  {
    seq(n, i => from + i)
  }

  predicate Enabled(s: State, a: Action) {
    match a
    case Read(n) => s.reader.Waiting? && n <= 4096
    case Load => s.reader.Holding?
    case Deliver => s.reader.Aimed? && s.reader.to.Some?
    case Keep => s.reader.Aimed?
    case Attach(_) => true
    case Take => s.pending != []
    case Flush(i) => i < |s.flushing|
  }

  function Step(s: State, a: Action): State
    requires Enabled(s, a)
  {
    match a
    case Read(n) => s.(read := s.read + n, reader := Holding(Positions(s.read, n)))
    case Load => s.(reader := Aimed(s.reader.data, s.ws))
    case Deliver => s.(reader := Waiting, sent := s.sent + s.reader.data)
    case Keep =>
      s.(reader := Waiting, pending := Buffered(s.pending, s.reader.data), since := s.since + s.reader.data,
         trimmed := s.trimmed + Dropped(s.pending + s.reader.data, PENDING_CAP))
    case Attach(ws) => s.(ws := Some(ws))
    case Take => s.(pending := [], since := [], flushing := s.flushing + [s.pending])
    case Flush(i) => s.(flushing := s.flushing[..i] + s.flushing[i + 1..], sent := s.sent + s.flushing[i])
  }

  function Initial(ws: nat): State {
    State(0, Waiting, Some(ws), [], [], [], [], [])
  }

  ghost predicate Possible(s: State, acts: seq<Action>)
    decreases |acts|
  {
    acts == [] || (Enabled(s, acts[0]) && Possible(Step(s, acts[0]), acts[1..]))
  }

  function Run(s: State, acts: seq<Action>): State
    requires Possible(s, acts)
    decreases |acts|
  {
    if acts == [] then s else Run(Step(s, acts[0]), acts[1..])
  }

  function Flat(chunks: seq<seq<nat>>): seq<nat> {
    if chunks == [] then [] else chunks[0] + Flat(chunks[1..])
  }

  function InHand(r: Reader): seq<nat> {
    if r.Waiting? then [] else r.data
  }

  /** Every byte with the places it is accounted for in. */
  function Ledger(s: State): multiset<nat> {
    multiset(InHand(s.reader)) + multiset(s.pending) + multiset(Flat(s.flushing)) + multiset(s.sent)
    + multiset(s.trimmed)
  }

  /** Each byte read is accounted for exactly once. */
  ghost predicate Accounted(s: State) {
    Ledger(s) == multiset(Positions(0, s.read))
  }

  ghost predicate Bounded(s: State) {
    s.pending == LastN(s.since, PENDING_CAP)
  }

  lemma {:induction false} FlatRemove(chunks: seq<seq<nat>>, i: nat)
    requires i < |chunks|
    ensures multiset(Flat(chunks)) == multiset(Flat(chunks[..i] + chunks[i + 1..])) + multiset(chunks[i])
    decreases i
  {
    if i == 0 {
      assert chunks[..0] + chunks[1..] == chunks[1..];
    } else {
      FlatRemove(chunks[1..], i - 1);
      var rest := chunks[..i] + chunks[i + 1..];
      assert rest[0] == chunks[0] && rest[1..] == chunks[1..][..i - 1] + chunks[1..][i..];
    }
  }

  lemma {:induction false} FlatAppend(chunks: seq<seq<nat>>, last: seq<nat>)
    ensures Flat(chunks + [last]) == Flat(chunks) + last
  {
    if chunks == [] {
      assert [last][1..] == [] && chunks + [last] == [last];
    } else {
      FlatAppend(chunks[1..], last);
      assert (chunks + [last])[1..] == chunks[1..] + [last];
    }
  }

  lemma MorePositions(read: nat, n: nat)
    ensures Positions(0, read + n) == Positions(0, read) + Positions(read, n)
  {
  }

  lemma ReadAccounted(s: State, n: nat)
    requires Enabled(s, Read(n)) && Accounted(s)
    ensures Accounted(Step(s, Read(n)))
  {
    MorePositions(s.read, n);
    assert multiset(InHand(s.reader)) == multiset{};
    assert Ledger(Step(s, Read(n))) == Ledger(s) + multiset(Positions(s.read, n));
  }

  lemma KeepAccounted(s: State)
    requires Enabled(s, Keep) && Accounted(s)
    ensures Accounted(Step(s, Keep))
  {
    var data, t := s.reader.data, Step(s, Keep);
    var all := s.pending + data;
    var dropped, last := Dropped(all, PENDING_CAP), LastN(all, PENDING_CAP);
    SplitLast(all, PENDING_CAP);
    assert multiset(s.pending) + multiset(data) == multiset(all) == multiset(dropped + last)
           == multiset(dropped) + multiset(last);
    assert t.pending == last && multiset(t.trimmed) == multiset(s.trimmed) + multiset(dropped);
    assert multiset(InHand(t.reader)) == multiset{} && InHand(s.reader) == data;
    Rebalance(multiset(data), multiset(s.pending), multiset(dropped), multiset(last),
              multiset(Flat(s.flushing)), multiset(s.sent), multiset(s.trimmed));
  }

  lemma Rebalance(h: multiset<nat>, p: multiset<nat>, d: multiset<nat>, l: multiset<nat>, f: multiset<nat>,
                  s: multiset<nat>, t: multiset<nat>)
    requires p + h == d + l
    ensures multiset{} + l + f + s + (t + d) == h + p + f + s + t
  {
    forall x: nat ensures (multiset{} + l + f + s + (t + d))[x] == (h + p + f + s + t)[x] {
      assert (p + h)[x] == (d + l)[x];
    }
  }

  lemma TakeAccounted(s: State)
    requires Enabled(s, Take) && Accounted(s)
    ensures Accounted(Step(s, Take))
  {
    FlatAppend(s.flushing, s.pending);
    assert Ledger(Step(s, Take)) == Ledger(s);
  }

  lemma FlushAccounted(s: State, i: nat)
    requires Enabled(s, Flush(i)) && Accounted(s)
    ensures Accounted(Step(s, Flush(i)))
  {
    FlatRemove(s.flushing, i);
    assert Ledger(Step(s, Flush(i))) == Ledger(s);
  }

  lemma StepAccounted(s: State, a: Action)
    requires Enabled(s, a) && Accounted(s)
    ensures Accounted(Step(s, a))
  {
    match a
    case Read(n) => ReadAccounted(s, n);
    case Load =>
    case Deliver => assert Ledger(Step(s, a)) == Ledger(s);
    case Keep => KeepAccounted(s);
    case Attach(_) =>
    case Take => TakeAccounted(s);
    case Flush(i) => FlushAccounted(s, i);
  }

  lemma StepBounded(s: State, a: Action)
    requires Enabled(s, a) && Bounded(s)
    ensures Bounded(Step(s, a))
  {
    if a.Keep? { LastOfLast(s.since, s.reader.data, PENDING_CAP); }
  }

  lemma {:induction false} RunKeeps(s: State, acts: seq<Action>)
    requires Possible(s, acts) && Accounted(s) && Bounded(s)
    ensures Accounted(Run(s, acts)) && Bounded(Run(s, acts))
    decreases |acts|
  {
    if acts != [] {
      StepAccounted(s, acts[0]);
      StepBounded(s, acts[0]);
      RunKeeps(Step(s, acts[0]), acts[1..]);
    }
  }

  /** In every interleaving every byte read is in exactly one place: in the reader's
      hand, pending, taken for a flush, handed to a write, or trimmed; and what is
      pending is the last 65536 bytes of what was buffered since the last flush. */
  lemma ReplayConservation(ws: nat, acts: seq<Action>)
    requires Possible(Initial(ws), acts)
    ensures var s := Run(Initial(ws), acts);
            Accounted(s) && s.pending == LastN(s.since, PENDING_CAP)
    ensures var s := Run(Initial(ws), acts);
            forall p :: 0 <= p < s.read ==> Ledger(s)[p] == 1
    ensures var s := Run(Initial(ws), acts);
            forall p: nat :: s.read <= p ==> Ledger(s)[p] == 0
  {
    assert Positions(0, 0) == [];
    RunKeeps(Initial(ws), acts);
    OnceEach(Run(Initial(ws), acts).read);
  }

  lemma {:induction false} OnceEach(n: nat)
    ensures forall p: nat :: multiset(Positions(0, n))[p] == if p < n then 1 else 0
  {
    if n > 0 {
      OnceEach(n - 1);
      MorePositions(n - 1, 1);
      assert Positions(n - 1, 1) == [n - 1];
    }
  }

  /** Nothing is trimmed before the buffer is full. */
  lemma TrimsOnlyWhenFull(s: State)
    requires Enabled(s, Keep)
    ensures Step(s, Keep).trimmed != s.trimmed <==> |s.pending| + |s.reader.data| > 65536
    ensures Step(s, Keep).trimmed != s.trimmed ==> |Step(s, Keep).pending| == 65536
  {
    if |s.pending| + |s.reader.data| > PENDING_CAP {
      assert |Step(s, Keep).trimmed| > |s.trimmed|;
    }
  }

  // ---- Who gets the bytes ---------------------------------------------------------

  /** The reader writes to the websocket attached last. */
  lemma {:induction false} AimsAtLastAttached(s: State, ws: nat, acts: seq<Action>)
    requires s.ws == Some(ws) && Possible(s, acts) && forall i :: 0 <= i < |acts| ==> !acts[i].Attach?
    requires Enabled(Run(s, acts), Load)
    ensures Step(Run(s, acts), Load).reader.to == Some(ws)
    decreases |acts|
  {
    if acts != [] { AimsAtLastAttached(Step(s, acts[0]), ws, acts[1..]); }
  }

  /** A reattach hands the new client everything buffered since the last flush, up to the
      last 65536 bytes of it, and leaves nothing. */
  lemma ReattachReplays(s: State, ws: nat)
    requires Bounded(s) && s.pending != []
    ensures var taken := Step(Step(s, Attach(ws)), Take);
            && Enabled(taken, Flush(|s.flushing|)) && taken.ws == Some(ws) && taken.pending == []
            && var flushed := Step(taken, Flush(|s.flushing|));
            && flushed.flushing == s.flushing && |flushed.sent| <= |s.sent| + 65536
            && flushed.sent == s.sent + (if |s.since| > 65536 then s.since[|s.since| - 65536..] else s.since)
  {
  }

  // ---- The order of what waits --------------------------------------------------

  ghost predicate Ascending(s: seq<nat>) {
    forall i, j :: 0 <= i < j < |s| ==> s[i] < s[j]
  }

  /** All bytes that have not reached a write yet, in the order the writes of the flushes would give them. */
  function Backlog(s: State): seq<nat> {
    Flat(s.flushing) + s.pending + InHand(s.reader)
  }

  ghost predicate Ordered(s: State) {
    Ascending(Backlog(s)) && forall i :: 0 <= i < |Backlog(s)| ==> Backlog(s)[i] < s.read
  }

  lemma CutOut(a: seq<nat>, b: seq<nat>, c: seq<nat>, limit: nat)
    requires Ascending(a + b + c) && forall i :: 0 <= i < |a + b + c| ==> (a + b + c)[i] < limit
    ensures Ascending(a + c) && forall i :: 0 <= i < |a + c| ==> (a + c)[i] < limit
  {
    var s, t := a + b + c, a + c;
    assert forall i :: 0 <= i < |t| ==> t[i] == s[if i < |a| then i else i + |b|];
  }

  lemma {:induction false} FlatConcat(a: seq<seq<nat>>, b: seq<seq<nat>>)
    ensures Flat(a + b) == Flat(a) + Flat(b)
    decreases |a|
  {
    if a == [] {
      assert a + b == b;
    } else {
      assert (a + b)[1..] == a[1..] + b;
      FlatConcat(a[1..], b);
    }
  }

  lemma KeepOrdered(s: State)
    requires Enabled(s, Keep) && Ordered(s)
    ensures Ordered(Step(s, Keep))
  {
    var all := s.pending + s.reader.data;
    SplitLast(all, PENDING_CAP);
    var flat, gone, kept := Flat(s.flushing), Dropped(all, PENDING_CAP), LastN(all, PENDING_CAP);
    assert Backlog(s) == flat + gone + kept;
    CutOut(flat, gone, kept, s.read);
    assert Backlog(Step(s, Keep)) == flat + kept;
  }

  /** What waits around a chunk taken for a flush, before and after it is written. */
  lemma FlushSplits(s: State, i: nat)
    requires Enabled(s, Flush(i))
    ensures var before, rest := Flat(s.flushing[..i]), Flat(s.flushing[i + 1..]) + s.pending + InHand(s.reader);
            && Backlog(s) == before + s.flushing[i] + rest
            && Backlog(Step(s, Flush(i))) == before + rest
  {
    var before, chunk, after := s.flushing[..i], s.flushing[i], s.flushing[i + 1..];
    assert s.flushing == before + ([chunk] + after) && ([chunk] + after)[1..] == after;
    FlatConcat(before, [chunk] + after);
    FlatConcat(before, after);
  }

  lemma FlushOrdered(s: State, i: nat)
    requires Enabled(s, Flush(i)) && Ordered(s)
    ensures Ordered(Step(s, Flush(i)))
  {
    var before, chunk := Flat(s.flushing[..i]), s.flushing[i];
    var rest := Flat(s.flushing[i + 1..]) + s.pending + InHand(s.reader);
    FlushSplits(s, i);
    CutOut(before, chunk, rest, s.read);
  }

  lemma StepOrdered(s: State, a: Action)
    requires Enabled(s, a) && Ordered(s)
    ensures Ordered(Step(s, a))
  {
    match a
    case Read(n) =>
      var more := Positions(s.read, n);
      assert Backlog(Step(s, a)) == Backlog(s) + more;
    case Load =>
    case Deliver =>
      CutOut(Flat(s.flushing) + s.pending, s.reader.data, [], s.read);
      assert Backlog(s) == Flat(s.flushing) + s.pending + s.reader.data + [];
      assert Backlog(Step(s, a)) == Flat(s.flushing) + s.pending + [];
    case Keep => KeepOrdered(s);
    case Attach(_) =>
    case Take =>
      FlatAppend(s.flushing, s.pending);
      assert Backlog(Step(s, a)) == Backlog(s);
    case Flush(i) => FlushOrdered(s, i);
  }

  /** What waits is never reordered: in every interleaving the chunks taken for flushes, the pending bytes
      and the bytes in the reader's hand follow each other in the order of the output. */
  lemma {:induction false} RunOrdered(s: State, acts: seq<Action>)
    requires Possible(s, acts) && Ordered(s)
    ensures Ordered(Run(s, acts))
    decreases |acts|
  {
    if acts != [] {
      StepOrdered(s, acts[0]);
      RunOrdered(Step(s, acts[0]), acts[1..]);
    }
  }

  lemma BacklogInOrder(ws: nat, acts: seq<Action>)
    requires Possible(Initial(ws), acts)
    ensures Ordered(Run(Initial(ws), acts))
  {
    RunOrdered(Initial(ws), acts);
  }

  // ---- The order of what is sent ------------------------------------------------

  ghost predicate AscendingBelow(s: seq<nat>, limit: nat) {
    Ascending(s) && forall i :: 0 <= i < |s| ==> s[i] < limit
  }

  /** What was sent and what waits, taken together, is in the order of the output. */
  ghost predicate InOrder(s: State) {
    AscendingBelow(s.sent + Backlog(s), s.read)
  }

  /** The action hands nothing to a write while older bytes wait. */
  predicate InTurn(s: State, a: Action)
    requires Enabled(s, a)
  {
    match a
    case Deliver => s.reader.data == [] || (s.pending == [] && Flat(s.flushing) == [])
    case Flush(i) => s.flushing[i] == [] || Flat(s.flushing[..i]) == []
    case _ => true
  }

  /** Moving b ahead of a keeps an ascending sequence ascending only if one of them is empty. */
  lemma AheadIff(front: seq<nat>, a: seq<nat>, b: seq<nat>, rest: seq<nat>, limit: nat)
    requires AscendingBelow(front + a + b + rest, limit)
    ensures AscendingBelow(front + b + a + rest, limit) <==> a == [] || b == []
  {
    var s, t := front + a + b + rest, front + b + a + rest;
    if a == [] || b == [] {
      assert s == t;
    } else {
      assert s[|front|] == a[0] == t[|front| + |b|] && s[|front| + |a|] == b[0] == t[|front|];
    }
  }

  lemma DeliverOrderIff(s: State)
    requires Enabled(s, Deliver) && InOrder(s)
    ensures InOrder(Step(s, Deliver)) <==> InTurn(s, Deliver)
  {
    var older, data := Flat(s.flushing) + s.pending, s.reader.data;
    assert s.sent + Backlog(s) == s.sent + older + data + [];
    assert s.sent + data + Backlog(Step(s, Deliver)) == s.sent + data + older + [];
    AheadIff(s.sent, older, data, [], s.read);
  }

  lemma Reorder(sent: seq<nat>, before: seq<nat>, chunk: seq<nat>, rest: seq<nat>)
    ensures sent + (before + chunk + rest) == sent + before + chunk + rest
    ensures sent + chunk + (before + rest) == sent + chunk + before + rest
  {
  }

  lemma FlushOrderIff(s: State, i: nat)
    requires Enabled(s, Flush(i)) && InOrder(s)
    ensures InOrder(Step(s, Flush(i))) <==> InTurn(s, Flush(i))
  {
    var before, chunk := Flat(s.flushing[..i]), s.flushing[i];
    var rest := Flat(s.flushing[i + 1..]) + s.pending + InHand(s.reader);
    FlushSplits(s, i);
    Reorder(s.sent, before, chunk, rest);
    AheadIff(s.sent, before, chunk, rest, s.read);
  }

  lemma Regroup(sent: seq<nat>, flat: seq<nat>, gone: seq<nat>, kept: seq<nat>)
    ensures sent + (flat + (gone + kept)) == sent + flat + gone + kept
    ensures sent + (flat + kept) == sent + flat + kept
  {
  }

  lemma KeepInOrder(s: State)
    requires Enabled(s, Keep) && InOrder(s)
    ensures InOrder(Step(s, Keep))
  {
    var all, flat := s.pending + s.reader.data, Flat(s.flushing);
    var gone, kept := Dropped(all, PENDING_CAP), LastN(all, PENDING_CAP);
    SplitLast(all, PENDING_CAP);
    assert Backlog(s) == flat + all;
    Regroup(s.sent, flat, gone, kept);
    CutOut(s.sent + flat, gone, kept, s.read);
    var t := Step(s, Keep);
    assert t.pending == kept && InHand(t.reader) == [] && t.sent == s.sent && t.flushing == s.flushing;
    assert Backlog(t) == flat + kept;
  }

  /** A step breaks the order exactly when it writes bytes while older ones wait. */
  lemma StepOrderIff(s: State, a: Action)
    requires Enabled(s, a) && InOrder(s)
    ensures InOrder(Step(s, a)) <==> InTurn(s, a)
  {
    match a
    case Read(n) =>
      assert s.sent + Backlog(Step(s, a)) == s.sent + Backlog(s) + Positions(s.read, n);
    case Load =>
    case Deliver => DeliverOrderIff(s);
    case Keep => KeepInOrder(s);
    case Attach(_) =>
    case Take =>
      FlatAppend(s.flushing, s.pending);
      assert Backlog(Step(s, a)) == Backlog(s);
    case Flush(i) => FlushOrderIff(s, i);
  }

  /** The state after the first k actions. */
  function After(s: State, acts: seq<Action>, k: nat): (t: State)
    requires Possible(s, acts) && k <= |acts|
    ensures k < |acts| ==> Enabled(t, acts[k])
    ensures k == |acts| ==> t == Run(s, acts)
    decreases k
  {
    if k == 0 then s else After(Step(s, acts[0]), acts[1..], k - 1)
  }

  ghost predicate AlwaysInOrder(s: State, acts: seq<Action>)
    requires Possible(s, acts)
  {
    forall k :: 0 <= k <= |acts| ==> InOrder(After(s, acts, k))
  }

  ghost predicate AllInTurn(s: State, acts: seq<Action>)
    requires Possible(s, acts)
  {
    forall k :: 0 <= k < |acts| ==> InTurn(After(s, acts, k), acts[k])
  }

  lemma {:induction false} RunOrderIff(s: State, acts: seq<Action>)
    requires Possible(s, acts) && InOrder(s)
    ensures AlwaysInOrder(s, acts) <==> AllInTurn(s, acts)
    decreases |acts|
  {
    if acts != [] {
      var t, more := Step(s, acts[0]), acts[1..];
      StepOrderIff(s, acts[0]);
      AfterNext(s, acts);
      if InOrder(t) { RunOrderIff(t, more); }
    }
  }

  /** Both properties of a run, split into its first action and the rest. */
  lemma AfterNext(s: State, acts: seq<Action>)
    requires acts != [] && Possible(s, acts)
    ensures AlwaysInOrder(s, acts) <==> InOrder(s) && AlwaysInOrder(Step(s, acts[0]), acts[1..])
    ensures AllInTurn(s, acts) <==> InTurn(s, acts[0]) && AllInTurn(Step(s, acts[0]), acts[1..])
    ensures AlwaysInOrder(Step(s, acts[0]), acts[1..]) ==> InOrder(Step(s, acts[0]))
  {
    var t, more := Step(s, acts[0]), acts[1..];
    assert After(s, acts, 0) == s && After(t, more, 0) == t;
    assert forall k :: 0 < k <= |acts| ==> After(s, acts, k) == After(t, more, k - 1);
    assert forall k :: 0 <= k <= |more| ==> After(t, more, k) == After(s, acts, k + 1);
    assert forall k :: 0 <= k < |more| ==> more[k] == acts[k + 1];
  }

  /** Of every session: sent and waiting bytes are in the order of the output all along
      exactly when nothing is ever written while older bytes wait. */
  lemma OutputInOrderIff(ws: nat, acts: seq<Action>)
    requires Possible(Initial(ws), acts)
    ensures AlwaysInOrder(Initial(ws), acts) <==> AllInTurn(Initial(ws), acts)
    ensures AllInTurn(Initial(ws), acts) ==> Ascending(Run(Initial(ws), acts).sent)
  {
    RunOrderIff(Initial(ws), acts);
    if AllInTurn(Initial(ws), acts) {
      var t := After(Initial(ws), acts, |acts|);
      assert InOrder(t);
      assert forall i :: 0 <= i < |t.sent| ==> t.sent[i] == (t.sent + Backlog(t))[i];
    }
  }

  /** A run in which the reader loads the old websocket just before a reattach. */
  function OvertakingRun(): seq<Action> {
    [Read(1), Load, Attach(2), Keep, Read(1), Load, Deliver]
  }

  /** Not every run is in turn: here the second byte reaches the new client while the
      first one stays behind in the buffer, its write to the old websocket having failed
      after the reattach had nothing to take. The last action is the one out of turn. */
  lemma LaterByteOvertakes()
    ensures Possible(Initial(1), OvertakingRun())
    ensures Run(Initial(1), OvertakingRun()).sent == [1] && Run(Initial(1), OvertakingRun()).pending == [0]
    ensures !InTurn(After(Initial(1), OvertakingRun(), 6), Deliver) && !AlwaysInOrder(Initial(1), OvertakingRun())
  {
    var s0, rest := Initial(1), [Read(1), Load, Deliver];
    var s1 := Step(s0, Read(1));
    assert Positions(0, 1) == [0] && [] + [0] == [0];
    var s2 := Step(s1, Load);
    var s3 := Step(s2, Attach(2));
    assert Step(s3, Keep) == Behindhand();
    LaterByte();
    FirstAction(s3, Keep, rest);
    FirstAction(s2, Attach(2), [Keep] + rest);
    FirstAction(s1, Load, [Attach(2)] + ([Keep] + rest));
    FirstAction(s0, Read(1), [Load] + ([Attach(2)] + ([Keep] + rest)));
    assert OvertakingRun() == [Read(1)] + ([Load] + ([Attach(2)] + ([Keep] + rest)));
    OutputInOrderIff(1, OvertakingRun());
  }

  /** The first byte is buffered, the new client attached. */
  function Behindhand(): State {
    State(1, Waiting, Some(2), [0], [0], [], [], [])
  }

  lemma LaterByte()
    ensures Possible(Behindhand(), [Read(1), Load, Deliver])
    ensures Run(Behindhand(), [Read(1), Load, Deliver]).sent == [1]
    ensures Run(Behindhand(), [Read(1), Load, Deliver]).pending == [0]
    ensures !InTurn(After(Behindhand(), [Read(1), Load, Deliver], 2), Deliver)
  {
    var s5 := Step(Behindhand(), Read(1));
    assert Positions(1, 1) == [1];
    var s6 := Step(s5, Load);
    FirstAction(s6, Deliver, []);
    FirstAction(s5, Load, [Deliver]);
    FirstAction(Behindhand(), Read(1), [Load, Deliver]);
  }

  lemma FirstAction(s: State, a: Action, more: seq<Action>)
    requires Enabled(s, a) && Possible(Step(s, a), more)
    ensures Possible(s, [a] + more) && Run(s, [a] + more) == Run(Step(s, a), more)
    ensures forall k :: 0 <= k <= |more| ==> After(s, [a] + more, k + 1) == After(Step(s, a), more, k)
  {
    assert ([a] + more)[1..] == more;
  }
}
