/** Logins for one account running at the same time. The blocked test, the record
    of a failure and the reset are separate critical sections, so other logins
    slip in between; this is the state machine of those atomic steps. */
module ConcurrentLogin {
  import opened SlidingWindow

  /** Check is the blocked test: a login that passes it is in flight until it
      fails, succeeds (which resets the tracker), or is abandoned without either,
      as on an internal error or when the second factor is still to be given. */
  datatype Action = Check(at: int) | Fail(at: int) | Succeed(at: int) | Abandon(at: int)

  /** `since` holds all failures since the last reset. */
  datatype Account = Account(since: seq<int>, inFlight: int, now: int)

  function Step(w: Window, s: Account, a: Action): Account {
    match a
    case Check(at) => if Full(w, s.since, at) then s.(now := at) else s.(inFlight := s.inFlight + 1, now := at)
    case Fail(at) => Account(s.since + [at], s.inFlight - 1, at)
    case Succeed(at) => Account([], s.inFlight - 1, at)
    case Abandon(at) => s.(inFlight := s.inFlight - 1, now := at)
  }

  /** The clock does not go back, only a login in flight can end, and at most n
      logins are in flight at once. */
  predicate Enabled(w: Window, n: int, s: Account, a: Action) {
    s.now <= a.at && (a.Check? || s.inFlight > 0) && Step(w, s, a).inFlight <= n
  }

  function Run(w: Window, s: Account, acts: seq<Action>): Account {
    if acts == [] then s else Step(w, Run(w, s, acts[..|acts| - 1]), acts[|acts| - 1])
  }

  ghost predicate Possible(w: Window, n: int, s: Account, acts: seq<Action>) {
    acts == [] ||
    (Possible(w, n, s, acts[..|acts| - 1])
     && Enabled(w, n, Run(w, s, acts[..|acts| - 1]), acts[|acts| - 1]))
  }

  function Initial(start: int): Account {
    Account([], 0, start)
  }

  function Failures(acts: seq<Action>): nat {
    if acts == [] then 0
    else Failures(acts[..|acts| - 1]) + if acts[|acts| - 1].Fail? then 1 else 0
  }

  /** Recent failures and logins in flight together stay below limit + n: a check
      that passes leaves room for everyone in flight, and a failure only turns one
      login in flight into one recent failure. */
  ghost predicate Contained(w: Window, n: int, s: Account) {
    0 <= s.inFlight <= n && |Recent(s.since, s.now - w.span)| + s.inFlight <= w.limit + n - 1
  }

  lemma StepContained(w: Window, n: int, s: Account, a: Action)
    requires w.limit >= 1 && Contained(w, n, s) && Enabled(w, n, s, a)
    ensures Contained(w, n, Step(w, s, a))
  {
    RecentMonotone(s.since, s.now - w.span, a.at - w.span);
    RecentAppend(s.since, a.at, a.at - w.span);
  }

  lemma {:induction false} RunContained(w: Window, n: int, start: int, acts: seq<Action>)
    requires w.limit >= 1 && n >= 1 && Possible(w, n, Initial(start), acts)
    ensures Contained(w, n, Run(w, Initial(start), acts))
  {
    if acts != [] {
      var init := acts[..|acts| - 1];
      RunContained(w, n, start, init);
      StepContained(w, n, Run(w, Initial(start), init), acts[|acts| - 1]);
    }
  }

  /** In a stretch of a run without a reset every failure later than the cutoff is
      still among the account's recent failures at its end. */
  lemma {:induction false} FailuresAreRecent(w: Window, s: Account, acts: seq<Action>, i: nat, cutoff: int)
    requires i <= |acts|
    requires forall k :: i <= k < |acts| ==> !acts[k].Succeed? && acts[k].at > cutoff
    ensures Failures(acts[i..]) <= |Recent(Run(w, s, acts).since, cutoff)|
    decreases |acts|
  {
    if i < |acts| {
      var init, last := acts[..|acts| - 1], acts[|acts| - 1];
      FailuresAreRecent(w, s, init, i, cutoff);
      assert acts[i..][..|acts[i..]| - 1] == init[i..] && acts[i..][|acts[i..]| - 1] == last;
      if last.Fail? { RecentAppend(Run(w, s, init).since, last.at, cutoff); }
    }
  }

  /** The times of a possible run do not go back. */
  lemma {:induction false} TimesInOrder(w: Window, n: int, s: Account, acts: seq<Action>, i: nat)
    requires Possible(w, n, s, acts) && i < |acts|
    ensures acts[i].at <= acts[|acts| - 1].at && Run(w, s, acts).now == acts[|acts| - 1].at
    ensures Possible(w, n, s, acts[..i + 1])
    decreases |acts|
  {
    if i < |acts| - 1 {
      TimesInOrder(w, n, s, acts[..|acts| - 1], i);
      assert acts[..|acts| - 1][..i + 1] == acts[..i + 1];
    } else {
      assert acts[..i + 1] == acts;
    }
  }

  /** The main bound: whatever the interleaving, a stretch of a run that contains
      no reset and is shorter than the window records at most limit + n - 1
      failures for the account. */
  lemma FailureBound(w: Window, n: int, start: int, acts: seq<Action>, i: nat, j: nat)
    requires w.limit >= 1 && n >= 1 && Possible(w, n, Initial(start), acts)
    requires i < j <= |acts| && acts[j - 1].at - acts[i].at < w.span
    requires forall k :: i <= k < j ==> !acts[k].Succeed?
    ensures Failures(acts[i..j]) <= w.limit + n - 1
  {
    var run := acts[..j];
    TimesInOrder(w, n, Initial(start), acts, j - 1);
    assert acts[..j - 1 + 1] == run && run[i..] == acts[i..j];
    RunBound(w, n, start, run, i);
  }

  /** The same for a stretch at the end of a run. */
  lemma RunBound(w: Window, n: int, start: int, run: seq<Action>, i: nat)
    requires w.limit >= 1 && n >= 1 && Possible(w, n, Initial(start), run)
    requires i < |run| && run[|run| - 1].at - run[i].at < w.span
    requires forall k :: i <= k < |run| ==> !run[k].Succeed?
    ensures Failures(run[i..]) <= w.limit + n - 1
  {
    var cutoff := run[|run| - 1].at - w.span;
    forall k | i <= k < |run| ensures run[k].at > cutoff {
      LaterThan(w, n, Initial(start), run, i, k);
    }
    FailuresAreRecent(w, Initial(start), run, i, cutoff);
    TimesInOrder(w, n, Initial(start), run, i);
    RunContained(w, n, start, run);
  }

  lemma LaterThan(w: Window, n: int, s: Account, acts: seq<Action>, i: nat, k: nat)
    requires Possible(w, n, s, acts) && i <= k < |acts|
    ensures acts[i].at <= acts[k].at
  {
    TimesInOrder(w, n, s, acts, k);
    TimesInOrder(w, n, s, acts[..k + 1], i);
  }

  /** One login at a time: the bound is the limit itself. */
  lemma SequentialFailureBound(w: Window, start: int, acts: seq<Action>, i: nat, j: nat)
    requires w.limit >= 1 && Possible(w, 1, Initial(start), acts)
    requires i < j <= |acts| && acts[j - 1].at - acts[i].at < w.span
    requires forall k :: i <= k < j ==> !acts[k].Succeed?
    ensures Failures(acts[i..j]) <= w.limit
  {
    FailureBound(w, 1, start, acts, i, j);
  }

  // ---- The bound is reached -------------------------------------------------

  /** k logins one after the other, all at the same time and all failing. */
  function OneByOne(k: nat, at: int): seq<Action> {
    if k == 0 then [] else OneByOne(k - 1, at) + [Check(at)] + [Fail(at)]
  }

  function Repeat(a: Action, k: nat): seq<Action> {
    if k == 0 then [] else Repeat(a, k - 1) + [a]
  }

  /** limit - 1 failures in turn; then n logins pass the check before any of them
      fails. */
  function Stampede(w: Window, n: nat, at: int): seq<Action>
    requires w.limit >= 1
  {
    OneByOne(w.limit - 1, at) + Repeat(Check(at), n) + Repeat(Fail(at), n)
  }

  lemma PossibleStep(w: Window, n: int, s: Account, acts: seq<Action>, a: Action)
    requires Possible(w, n, s, acts) && Enabled(w, n, Run(w, s, acts), a)
    ensures Possible(w, n, s, acts + [a]) && Run(w, s, acts + [a]) == Step(w, Run(w, s, acts), a)
    ensures Failures(acts + [a]) == Failures(acts) + if a.Fail? then 1 else 0
  {
    assert (acts + [a])[..|acts + [a]| - 1] == acts;
  }

  /** Failures at the present moment: they are all recent. */
  ghost predicate AllNow(w: Window, s: Account, fails: nat, inFlight: nat, at: int) {
    s.inFlight == inFlight && s.now == at && |Recent(s.since, at - w.span)| == fails
  }

  lemma {:induction false} InTurn(w: Window, n: int, k: nat, at: int)
    requires k < w.limit && n >= 1 && w.span > 0
    ensures Possible(w, n, Initial(at), OneByOne(k, at)) && Failures(OneByOne(k, at)) == k
    ensures AllNow(w, Run(w, Initial(at), OneByOne(k, at)), k, 0, at)
  {
    if k == 0 {
      assert OneByOne(0, at) == [] && Run(w, Initial(at), []) == Initial(at);
    } else {
      var before := OneByOne(k - 1, at);
      InTurn(w, n, k - 1, at);
      OneMore(w, n, before, k - 1, at);
      assert OneByOne(k, at) == before + [Check(at)] + [Fail(at)];
    }
  }

  lemma OneMore(w: Window, n: int, before: seq<Action>, k: nat, at: int)
    requires k < w.limit && n >= 1 && w.span > 0
    requires Possible(w, n, Initial(at), before) && AllNow(w, Run(w, Initial(at), before), k, 0, at)
    ensures var acts := before + [Check(at)] + [Fail(at)];
            && Possible(w, n, Initial(at), acts) && Failures(acts) == Failures(before) + 1
            && AllNow(w, Run(w, Initial(at), acts), k + 1, 0, at)
  {
    PassOne(w, n, before, k, 0, at);
    FailOne(w, n, before + [Check(at)], k, 1, at);
  }

  lemma PassOne(w: Window, n: nat, before: seq<Action>, fails: nat, k: nat, at: int)
    requires Possible(w, n, Initial(at), before) && AllNow(w, Run(w, Initial(at), before), fails, k, at)
    requires fails < w.limit && k < n
    ensures Possible(w, n, Initial(at), before + [Check(at)]) && Failures(before + [Check(at)]) == Failures(before)
    ensures AllNow(w, Run(w, Initial(at), before + [Check(at)]), fails, k + 1, at)
  {
    var s := Run(w, Initial(at), before);
    assert Step(w, s, Check(at)).inFlight == k + 1 && Step(w, s, Check(at)).since == s.since;
    assert Enabled(w, n, s, Check(at));
    PossibleStep(w, n, Initial(at), before, Check(at));
  }

  lemma FailOne(w: Window, n: nat, before: seq<Action>, fails: nat, k: nat, at: int)
    requires Possible(w, n, Initial(at), before) && AllNow(w, Run(w, Initial(at), before), fails, k, at)
    requires k > 0 && w.span > 0
    ensures Possible(w, n, Initial(at), before + [Fail(at)]) && Failures(before + [Fail(at)]) == Failures(before) + 1
    ensures AllNow(w, Run(w, Initial(at), before + [Fail(at)]), fails + 1, k - 1, at)
  {
    PossibleStep(w, n, Initial(at), before, Fail(at));
    RecentAppend(Run(w, Initial(at), before).since, at, at - w.span);
  }

  lemma RepeatMore(before: seq<Action>, a: Action, k: nat)
    requires k > 0
    ensures before + Repeat(a, k) == before + Repeat(a, k - 1) + [a]
  {
  }

  lemma {:induction false} AllPass(w: Window, n: nat, before: seq<Action>, fails: nat, k: nat, at: int)
    requires Possible(w, n, Initial(at), before) && AllNow(w, Run(w, Initial(at), before), fails, 0, at)
    requires fails < w.limit && k <= n
    ensures Possible(w, n, Initial(at), before + Repeat(Check(at), k))
            && Failures(before + Repeat(Check(at), k)) == Failures(before)
    ensures AllNow(w, Run(w, Initial(at), before + Repeat(Check(at), k)), fails, k, at)
  {
    if k == 0 {
      assert before + [] == before;
    } else {
      AllPass(w, n, before, fails, k - 1, at);
      PassOne(w, n, before + Repeat(Check(at), k - 1), fails, k - 1, at);
      RepeatMore(before, Check(at), k);
    }
  }

  lemma {:induction false} AllFail(w: Window, n: nat, before: seq<Action>, fails: nat, k: nat, at: int)
    requires Possible(w, n, Initial(at), before) && AllNow(w, Run(w, Initial(at), before), fails, n, at)
    requires k <= n && w.span > 0
    ensures Possible(w, n, Initial(at), before + Repeat(Fail(at), k))
            && Failures(before + Repeat(Fail(at), k)) == Failures(before) + k
    ensures AllNow(w, Run(w, Initial(at), before + Repeat(Fail(at), k)), fails + k, n - k, at)
  {
    if k == 0 {
      assert before + [] == before;
    } else {
      AllFail(w, n, before, fails, k - 1, at);
      FailOne(w, n, before + Repeat(Fail(at), k - 1), fails + (k - 1), n - (k - 1), at);
      RepeatMore(before, Fail(at), k);
    }
  }

  lemma {:induction false} OneByOneAt(k: nat, at: int)
    ensures forall i :: 0 <= i < |OneByOne(k, at)| ==> OneByOne(k, at)[i] == Check(at) || OneByOne(k, at)[i] == Fail(at)
  {
    if k > 0 { OneByOneAt(k - 1, at); }
  }

  lemma {:induction false} RepeatAt(a: Action, k: nat)
    ensures |Repeat(a, k)| == k && forall i :: 0 <= i < k ==> Repeat(a, k)[i] == a
  {
    if k > 0 { RepeatAt(a, k - 1); }
  }

  /** n logins that all pass the check before any of them fails. */
  lemma Wave(w: Window, n: nat, before: seq<Action>, fails: nat, at: int)
    requires Possible(w, n, Initial(at), before) && AllNow(w, Run(w, Initial(at), before), fails, 0, at)
    requires fails < w.limit && w.span > 0
    ensures Possible(w, n, Initial(at), before + Repeat(Check(at), n) + Repeat(Fail(at), n))
    ensures Failures(before + Repeat(Check(at), n) + Repeat(Fail(at), n)) == Failures(before) + n
  {
    AllPass(w, n, before, fails, n, at);
    AllFail(w, n, before + Repeat(Check(at), n), fails, n, at);
  }

  lemma StampedeShape(w: Window, n: nat, at: int)
    requires w.limit >= 1
    ensures forall i :: 0 <= i < |Stampede(w, n, at)| ==>
            !Stampede(w, n, at)[i].Succeed? && Stampede(w, n, at)[i].at == at
  {
    OneByOneAt(w.limit - 1, at);
    RepeatAt(Check(at), n);
    RepeatAt(Fail(at), n);
  }

  /** The bound is exact: for every limit and every n some run without a reset,
      all at one moment, records limit + n - 1 failures. */
  lemma FailureBoundIsReached(w: Window, n: nat, at: int)
    requires w.limit >= 1 && n >= 1 && w.span > 0
    ensures Possible(w, n, Initial(at), Stampede(w, n, at))
    ensures forall i :: 0 <= i < |Stampede(w, n, at)| ==>
            !Stampede(w, n, at)[i].Succeed? && Stampede(w, n, at)[i].at == at
    ensures Failures(Stampede(w, n, at)) == w.limit + n - 1
  {
    InTurn(w, n, w.limit - 1, at);
    Wave(w, n, OneByOne(w.limit - 1, at), w.limit - 1, at);
    StampedeShape(w, n, at);
  }

  // ---- The steps are the tracker's critical sections -------------------------------------

  /** The logins of one account, at most n of them in flight; `acts` is what they did to the
      failure tracker, in order. The tracker's full history is at all times what the state
      machine makes of it. */
  class Logins {
    const tracker: FailureTracker
    const key: string
    const n: int
    ghost const start: int
    ghost var acts: seq<Action>

    ghost function State(): Account
      reads this, tracker
    {
      Run(tracker.w, Initial(start), acts)
    }

    ghost predicate Valid()
      reads this, tracker, tracker.clock
    {
      && tracker.Valid() && Possible(tracker.w, n, Initial(start), acts)
      && Times(tracker.since, key) == State().since && State().now <= tracker.clock.now
    }

    constructor (tracker: FailureTracker, key: string, n: int)
      requires tracker.Valid() && key !in tracker.since
      ensures Valid() && this.tracker == tracker && this.key == key && this.n == n && acts == []
    {
      this.tracker, this.key, this.n, start, acts := tracker, key, n, tracker.clock.now, [];
    }

    /** The blocked test; a login that passes is in flight. */
    method Begin() returns (blocked: bool)
      requires Valid() && State().inFlight < n
      modifies this`acts, tracker`fails, tracker`asOf, tracker.clock
      ensures Valid() && acts == old(acts) + [Check(tracker.clock.now)]
      ensures State().inFlight == old(State().inFlight) + if blocked then 0 else 1
    {
      blocked := tracker.Blocked(key);
      PossibleStep(tracker.w, n, Initial(start), acts, Check(tracker.clock.now));
      acts := acts + [Check(tracker.clock.now)];
    }

    /** A wrong password or second factor. */
    method Failed()
      requires Valid() && 0 < State().inFlight <= n
      modifies this`acts, tracker`fails, tracker`since, tracker`asOf, tracker.clock
      ensures Valid() && acts == old(acts) + [Fail(tracker.clock.now)]
      ensures State().inFlight == old(State().inFlight) - 1
    {
      tracker.Fail(key);
      PossibleStep(tracker.w, n, Initial(start), acts, Fail(tracker.clock.now));
      acts := acts + [Fail(tracker.clock.now)];
    }

    /** A success, which resets the account. */
    method Succeeded()
      requires Valid() && 0 < State().inFlight <= n
      modifies this`acts, tracker`fails, tracker`since
      ensures Valid() && acts == old(acts) + [Succeed(tracker.clock.now)]
      ensures State().inFlight == old(State().inFlight) - 1
    {
      tracker.Reset(key);
      PossibleStep(tracker.w, n, Initial(start), acts, Succeed(tracker.clock.now));
      acts := acts + [Succeed(tracker.clock.now)];
    }

    /** An end that leaves the tracker alone. */
    method Abandoned()
      requires Valid() && 0 < State().inFlight <= n
      modifies this`acts
      ensures Valid() && acts == old(acts) + [Abandon(tracker.clock.now)]
      ensures State().inFlight == old(State().inFlight) - 1
    {
      PossibleStep(tracker.w, n, Initial(start), acts, Abandon(tracker.clock.now));
      acts := acts + [Abandon(tracker.clock.now)];
    }
  }
}
