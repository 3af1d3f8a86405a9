/** The sliding-window login limiter (per address) and the failure tracker (per
    account): lists of times, pruned on every use. */
module SlidingWindow {
  import opened Clocks

  datatype Window = Window(limit: int, span: int)

  /** The times later than the cutoff. */
  function Recent(ts: seq<int>, cutoff: int): (r: seq<int>)
    ensures |r| <= |ts|
  {
    if ts == [] then []
    else if ts[|ts| - 1] > cutoff then Recent(ts[..|ts| - 1], cutoff) + [ts[|ts| - 1]]
    else Recent(ts[..|ts| - 1], cutoff)
  }

  ghost predicate Sorted(ts: seq<int>) {
    forall i, j :: 0 <= i <= j < |ts| ==> ts[i] <= ts[j]
  }

  ghost predicate UpTo(ts: seq<int>, now: int) {
    forall i :: 0 <= i < |ts| ==> ts[i] <= now
  }

  /** Any two entries `limit` places apart are at least `span` apart in time. */
  ghost predicate Spaced(w: Window, ts: seq<int>) {
    forall i, j :: 0 <= i < |ts| && 0 <= j < |ts| && j == i + w.limit ==> ts[j] - ts[i] >= w.span
  }

  lemma {:induction false} RecentOfRecent(ts: seq<int>, a: int, b: int)
    requires a <= b
    ensures Recent(Recent(ts, a), b) == Recent(ts, b)
  {
    if ts != [] {
      var init, last := ts[..|ts| - 1], ts[|ts| - 1];
      RecentOfRecent(init, a, b);
      if last > a {
        assert Recent(ts, a)[..|Recent(ts, a)| - 1] == Recent(init, a);
      }
    }
  }

  lemma {:induction false} RecentAppend(ts: seq<int>, x: int, cutoff: int)
    ensures Recent(ts + [x], cutoff) == if x > cutoff then Recent(ts, cutoff) + [x] else Recent(ts, cutoff)
  {
    assert (ts + [x])[..|ts + [x]| - 1] == ts;
  }

  /** Pruning keeps order and takes nothing that is not there. */
  lemma {:induction false} RecentKeeps(ts: seq<int>, cutoff: int, now: int)
    requires Sorted(ts) && UpTo(ts, now)
    ensures Sorted(Recent(ts, cutoff)) && UpTo(Recent(ts, cutoff), now)
  {
    if ts != [] {
      var init, last := ts[..|ts| - 1], ts[|ts| - 1];
      assert UpTo(init, last);
      RecentKeeps(init, cutoff, last);
    }
  }

  /** In a sorted list everything after a recent entry is recent. */
  lemma {:induction false} RecentTail(ts: seq<int>, k: nat, cutoff: int)
    requires Sorted(ts) && k < |ts| && ts[k] > cutoff
    ensures |Recent(ts, cutoff)| >= |ts| - k
    decreases |ts|
  {
    if k < |ts| - 1 { RecentTail(ts[..|ts| - 1], k, cutoff); }
  }

  lemma {:induction false} RecentMonotone(ts: seq<int>, a: int, b: int)
    requires a <= b
    ensures |Recent(ts, b)| <= |Recent(ts, a)|
  {
    RecentOfRecent(ts, a, b);
  }

  /** Counting the whole history of events the limit is about. */
  predicate Full(w: Window, history: seq<int>, now: int) {
    |Recent(history, now - w.span)| >= w.limit
  }

  /** Recent keeps each entry as often as it is there if it is later than the cutoff, and no
      other. */
  lemma {:induction false} RecentCounts(ts: seq<int>, cutoff: int, x: int)
    ensures multiset(Recent(ts, cutoff))[x] == if x > cutoff then multiset(ts)[x] else 0
  {
    if ts != [] {
      var init, last := ts[..|ts| - 1], ts[|ts| - 1];
      RecentCounts(init, cutoff, x);
      assert ts == init + [last];
    }
  }

  lemma {:induction false} RecentHead(ts: seq<int>, k: nat, cutoff: int)
    requires Sorted(ts) && k < |ts| && ts[k] <= cutoff
    ensures |Recent(ts, cutoff)| <= |ts| - k - 1
    decreases |ts|
  {
    var init := ts[..|ts| - 1];
    if k < |ts| - 1 { RecentHead(init, k, cutoff); } else { NoneRecent(init, cutoff); }
  }

  lemma {:induction false} NoneRecent(ts: seq<int>, cutoff: int)
    requires forall i :: 0 <= i < |ts| ==> ts[i] <= cutoff
    ensures Recent(ts, cutoff) == []
  {
    if ts != [] { NoneRecent(ts[..|ts| - 1], cutoff); }
  }

  /** Of events in order of time: the window is full exactly when there are `limit` of them
      and the limit-th last lies less than a span ago. */
  lemma FullIff(w: Window, history: seq<int>, now: int)
    requires Sorted(history) && w.limit >= 1
    ensures Full(w, history, now) <==> |history| >= w.limit && now - history[|history| - w.limit] < w.span
  {
    if |history| >= w.limit {
      var k := |history| - w.limit;
      if history[k] > now - w.span { RecentTail(history, k, now - w.span); }
      else { RecentHead(history, k, now - w.span); }
    }
  }

  /** A pruned list stands for the history: from now on no cutoff can tell them
      apart. */
  ghost predicate Remembers(w: Window, stored: seq<int>, history: seq<int>, now: int) {
    && Sorted(history) && UpTo(history, now) && Sorted(stored) && UpTo(stored, now)
    && forall c :: c >= now - w.span ==> Recent(stored, c) == Recent(history, c)
  }

  lemma PruneRemembers(w: Window, stored: seq<int>, history: seq<int>, before: int, now: int)
    requires Remembers(w, stored, history, before) && before <= now
    ensures Recent(stored, now - w.span) == Recent(history, now - w.span)
    ensures Remembers(w, Recent(stored, now - w.span), history, now)
  {
    var pruned := Recent(stored, now - w.span);
    RecentKeeps(stored, now - w.span, before);
    forall c | c >= now - w.span ensures Recent(pruned, c) == Recent(history, c) {
      RecentOfRecent(stored, now - w.span, c);
    }
  }

  lemma AppendRemembers(w: Window, stored: seq<int>, history: seq<int>, now: int)
    requires Remembers(w, stored, history, now)
    ensures Remembers(w, stored + [now], history + [now], now)
  {
    forall c | c >= now - w.span ensures Recent(stored + [now], c) == Recent(history + [now], c) {
      RecentAppend(stored, now, c);
      RecentAppend(history, now, c);
    }
  }

  /** The filtering loop both throttles run under their lock. */
  method KeepRecent(ts: seq<int>, cutoff: int) returns (valid: seq<int>)
    ensures valid == Recent(ts, cutoff)
  {
    valid := [];
    for i := 0 to |ts|
      invariant valid == Recent(ts[..i], cutoff)
    {
      assert ts[..i + 1][..i] == ts[..i];
      if ts[i] > cutoff { valid := valid + [ts[i]]; }
    }
    assert ts[..|ts|] == ts;
  }

  function Times(m: map<string, seq<int>>, key: string): seq<int> {
    if key in m then m[key] else []
  }

  // ---- rateLimiter -----------------------------------------------------------

  /** What `allow` leaves in the list of one address, and its answer. */
  function AfterAllow(w: Window, stored: seq<int>, now: int): (seq<int>, bool) {
    var valid := Recent(stored, now - w.span);
    if |valid| >= w.limit then (valid, false) else (valid + [now], true)
  }

  ghost predicate Admitted(w: Window, stored: seq<int>, history: seq<int>, now: int) {
    Remembers(w, stored, history, now) && Spaced(w, history) && |stored| <= (if w.limit < 0 then 0 else w.limit)
  }

  /** One call on the pruned list answers as the definition over the full history
      of accepted attempts does, and keeps the invariant. */
  lemma AllowRefines(w: Window, stored: seq<int>, history: seq<int>, before: int, now: int)
    requires Admitted(w, stored, history, before) && before <= now
    ensures AfterAllow(w, stored, now).1 <==> !Full(w, history, now)
    ensures Admitted(w, AfterAllow(w, stored, now).0, if Full(w, history, now) then history else history + [now], now)
  {
    PruneRemembers(w, stored, history, before, now);
    var kept := Recent(stored, now - w.span);
    if Full(w, history, now) {
      assert AfterAllow(w, stored, now) == (kept, false);
    } else {
      AdmitOne(w, kept, history, now);
    }
  }

  lemma AdmitOne(w: Window, kept: seq<int>, history: seq<int>, now: int)
    requires Remembers(w, kept, history, now) && Spaced(w, history) && |kept| < w.limit && !Full(w, history, now)
    ensures Admitted(w, kept + [now], history + [now], now)
  {
    AppendRemembers(w, kept, history, now);
    SpacedAppend(w, history, now);
  }

  lemma SpacedAppend(w: Window, history: seq<int>, now: int)
    requires Sorted(history) && UpTo(history, now) && Spaced(w, history) && !Full(w, history, now)
    ensures Spaced(w, history + [now])
  {
    var n := |history|;
    if w.limit <= n && history[n - w.limit] > now - w.span {
      RecentTail(history, n - w.limit, now - w.span);
    }
    var ts := history + [now];
    forall i, j | 0 <= i < |ts| && 0 <= j < |ts| && j == i + w.limit ensures ts[j] - ts[i] >= w.span {
      if j < n { assert history[j] - history[i] >= w.span; } else { assert j == n && i == n - w.limit; }
    }
  }

  /** The answers of the pruning code over a run of attempts from one address. */
  function PrunedAnswers(w: Window, stored: seq<int>, attempts: seq<int>): (r: seq<bool>)
    ensures |r| == |attempts|
    decreases |attempts|
  {
    if attempts == [] then []
    else
      var (stored', ok) := AfterAllow(w, stored, attempts[0]);
      [ok] + PrunedAnswers(w, stored', attempts[1..])
  }

  /** The specification: an attempt is accepted when fewer than `limit` accepted
      attempts are later than `span` ago. Nothing is ever forgotten. */
  function SpecAnswers(w: Window, history: seq<int>, attempts: seq<int>): (r: seq<bool>)
    ensures |r| == |attempts|
    decreases |attempts|
  {
    if attempts == [] then []
    else if Full(w, history, attempts[0]) then [false] + SpecAnswers(w, history, attempts[1..])
    else [true] + SpecAnswers(w, history + [attempts[0]], attempts[1..])
  }

  function AcceptedTimes(answers: seq<bool>, attempts: seq<int>): seq<int>
    requires |answers| == |attempts|
  {
    if answers == [] then []
    else (if answers[0] then [attempts[0]] else []) + AcceptedTimes(answers[1..], attempts[1..])
  }

  /** Pruning is invisible, and the accepted attempts are spaced out. */
  lemma {:induction false} PruningRefinesSpec(w: Window, stored: seq<int>, history: seq<int>, attempts: seq<int>,
                                              before: int)
    requires Admitted(w, stored, history, before) && Sorted(attempts) && (attempts != [] ==> before <= attempts[0])
    ensures PrunedAnswers(w, stored, attempts) == SpecAnswers(w, history, attempts)
    ensures Spaced(w, history + AcceptedTimes(SpecAnswers(w, history, attempts), attempts))
    decreases |attempts|
  {
    if attempts == [] {
      assert history + [] == history;
    } else {
      var now := attempts[0];
      AllowRefines(w, stored, history, before, now);
      var history' := if Full(w, history, now) then history else history + [now];
      assert forall i :: 0 <= i < |attempts| - 1 ==> attempts[1..][i] == attempts[i + 1];
      PruningRefinesSpec(w, AfterAllow(w, stored, now).0, history', attempts[1..], now);
      SpecUnfolds(w, history, attempts);
    }
  }

  lemma SpecUnfolds(w: Window, history: seq<int>, attempts: seq<int>)
    requires attempts != []
    ensures var now := attempts[0];
            var history' := if Full(w, history, now) then history else history + [now];
            history + AcceptedTimes(SpecAnswers(w, history, attempts), attempts)
            == history' + AcceptedTimes(SpecAnswers(w, history', attempts[1..]), attempts[1..])
  {
    var now := attempts[0];
    var full := Full(w, history, now);
    var history' := if full then history else history + [now];
    var later := SpecAnswers(w, history', attempts[1..]);
    assert SpecAnswers(w, history, attempts) == [!full] + later;
    assert ([!full] + later)[1..] == later;
  }

  /** From an empty limiter. */
  lemma LimiterMeetsSpec(w: Window, attempts: seq<int>)
    requires Sorted(attempts)
    ensures PrunedAnswers(w, [], attempts) == SpecAnswers(w, [], attempts)
    ensures Spaced(w, AcceptedTimes(PrunedAnswers(w, [], attempts), attempts))
  {
    var before := if attempts == [] then 0 else attempts[0];
    PruningRefinesSpec(w, [], [], attempts, before);
    var accepted := AcceptedTimes(SpecAnswers(w, [], attempts), attempts);
    assert [] + accepted == accepted;
  }

  /** The map after pruning one key: an empty list is dropped. */
  function PrunedMap(m: map<string, seq<int>>, key: string, valid: seq<int>): map<string, seq<int>> {
    if |valid| == 0 then m - {key} else m[key := valid]
  }

  lemma PrunedMapTimes(m: map<string, seq<int>>, key: string, valid: seq<int>, k: string)
    ensures Times(PrunedMap(m, key, valid), k) == if k == key then valid else Times(m, k)
  {
  }

  ghost predicate AllAdmitted(w: Window, attempts: map<string, seq<int>>, accepted: map<string, seq<int>>, now: int) {
    forall ip {:trigger Admitted(w, Times(attempts, ip), Times(accepted, ip), now)} ::
      Admitted(w, Times(attempts, ip), Times(accepted, ip), now)
  }

  function AttemptsAfter(w: Window, attempts: map<string, seq<int>>, ip: string, now: int): map<string, seq<int>> {
    var valid := Recent(Times(attempts, ip), now - w.span);
    if |valid| >= w.limit then PrunedMap(attempts, ip, valid) else PrunedMap(attempts, ip, valid)[ip := valid + [now]]
  }

  function HistoryAfter(w: Window, accepted: map<string, seq<int>>, ip: string, now: int): map<string, seq<int>> {
    if Full(w, Times(accepted, ip), now) then accepted else accepted[ip := Times(accepted, ip) + [now]]
  }

  lemma AttemptsAfterTimes(w: Window, attempts: map<string, seq<int>>, ip: string, now: int, k: string)
    ensures Times(AttemptsAfter(w, attempts, ip, now), k) ==
            if k == ip then AfterAllow(w, Times(attempts, ip), now).0 else Times(attempts, k)
  {
    PrunedMapTimes(attempts, ip, Recent(Times(attempts, ip), now - w.span), k);
  }

  lemma AllowKeepsKey(w: Window, attempts: map<string, seq<int>>, accepted: map<string, seq<int>>, ip: string,
                      before: int, now: int, k: string)
    requires Admitted(w, Times(attempts, k), Times(accepted, k), before) && before <= now
    ensures Admitted(w, Times(AttemptsAfter(w, attempts, ip, now), k), Times(HistoryAfter(w, accepted, ip, now), k),
            now)
  {
    AttemptsAfterTimes(w, attempts, ip, now, k);
    if k == ip {
      AllowRefines(w, Times(attempts, ip), Times(accepted, ip), before, now);
    } else {
      AdmittedLater(w, Times(attempts, k), Times(accepted, k), before, now);
    }
  }

  lemma AllowKeepsAll(w: Window, attempts: map<string, seq<int>>, accepted: map<string, seq<int>>, ip: string,
                      before: int, now: int)
    requires AllAdmitted(w, attempts, accepted, before) && before <= now
    ensures AfterAllow(w, Times(attempts, ip), now).1 <==> !Full(w, Times(accepted, ip), now)
    ensures AllAdmitted(w, AttemptsAfter(w, attempts, ip, now), HistoryAfter(w, accepted, ip, now), now)
  {
    assert Admitted(w, Times(attempts, ip), Times(accepted, ip), before);
    AllowRefines(w, Times(attempts, ip), Times(accepted, ip), before, now);
    forall k ensures Admitted(w, Times(AttemptsAfter(w, attempts, ip, now), k),
                              Times(HistoryAfter(w, accepted, ip, now), k), now) {
      assert Admitted(w, Times(attempts, k), Times(accepted, k), before);
      AllowKeepsKey(w, attempts, accepted, ip, before, now, k);
    }
  }

  /** `accepted` is the full history of accepted attempts of every address. */
  class LoginLimiter {
    const w: Window
    const clock: Clock
    var attempts: map<string, seq<int>>
    ghost var accepted: map<string, seq<int>>
    ghost var asOf: int  // the clock at the last use

    ghost predicate Valid()
      reads this, clock
    {
      asOf <= clock.now && AllAdmitted(w, attempts, accepted, asOf)
    }

    constructor (limit: int, span: int, clock: Clock)
      ensures Valid() && w == Window(limit, span) && this.clock == clock && accepted == map[]
    {
      w, this.clock, attempts, accepted, asOf := Window(limit, span), clock, map[], map[], clock.now;
    }

    method Allow(ip: string) returns (ok: bool)
      requires Valid()
      modifies this`attempts, this`accepted, this`asOf, clock
      ensures Valid() && old(clock.now) <= clock.now
      ensures ok <==> !Full(w, Times(old(accepted), ip), clock.now)
      ensures accepted == if ok then old(accepted)[ip := Times(old(accepted), ip) + [clock.now]] else old(accepted)
      ensures attempts == AttemptsAfter(w, old(attempts), ip, clock.now)
    {
      var now := clock.Read();
      AllowKeepsAll(w, attempts, accepted, ip, asOf, now);
      asOf := now;
      var valid := KeepRecent(Times(attempts, ip), now - w.span);
      accepted := HistoryAfter(w, accepted, ip, now);
      if |valid| == 0 { attempts := attempts - {ip}; } else { attempts := attempts[ip := valid]; }
      if |valid| >= w.limit { return false; }
      attempts := attempts[ip := valid + [now]];
      return true;
    }
  }

  lemma AdmittedLater(w: Window, stored: seq<int>, history: seq<int>, before: int, now: int)
    requires Admitted(w, stored, history, before) && before <= now
    ensures Admitted(w, stored, history, now)
  {
  }

  // ---- failureTracker --------------------------------------------------------

  ghost predicate AllRemembered(w: Window, fails: map<string, seq<int>>, since: map<string, seq<int>>, now: int) {
    forall key {:trigger Remembers(w, Times(fails, key), Times(since, key), now)} ::
      Remembers(w, Times(fails, key), Times(since, key), now)
  }

  function Appended(m: map<string, seq<int>>, key: string, now: int): map<string, seq<int>> {
    m[key := Times(m, key) + [now]]
  }

  lemma PruneKeepsKey(w: Window, fails: map<string, seq<int>>, since: map<string, seq<int>>, key: string, before: int,
                      now: int, k: string)
    requires Remembers(w, Times(fails, k), Times(since, k), before) && before <= now
    ensures Remembers(w, Times(PrunedMap(fails, key, Recent(Times(fails, key), now - w.span)), k), Times(since, k), now)
  {
    PrunedMapTimes(fails, key, Recent(Times(fails, key), now - w.span), k);
    if k == key { PruneRemembers(w, Times(fails, key), Times(since, key), before, now); }
  }

  lemma PruneKeepsAll(w: Window, fails: map<string, seq<int>>, since: map<string, seq<int>>, key: string, before: int,
                      now: int)
    requires AllRemembered(w, fails, since, before) && before <= now
    ensures Recent(Times(fails, key), now - w.span) == Recent(Times(since, key), now - w.span)
    ensures AllRemembered(w, PrunedMap(fails, key, Recent(Times(fails, key), now - w.span)), since, now)
  {
    assert Remembers(w, Times(fails, key), Times(since, key), before);
    forall k ensures Remembers(w, Times(PrunedMap(fails, key, Recent(Times(fails, key), now - w.span)), k),
                               Times(since, k), now) {
      assert Remembers(w, Times(fails, k), Times(since, k), before);
      PruneKeepsKey(w, fails, since, key, before, now, k);
    }
  }

  lemma AppendKeepsAll(w: Window, fails: map<string, seq<int>>, since: map<string, seq<int>>, key: string, now: int)
    requires AllRemembered(w, fails, since, now)
    ensures AllRemembered(w, Appended(fails, key, now), Appended(since, key, now), now)
  {
    forall k ensures Remembers(w, Times(Appended(fails, key, now), k), Times(Appended(since, key, now), k), now) {
      assert Remembers(w, Times(fails, k), Times(since, k), now);
      if k == key { AppendRemembers(w, Times(fails, key), Times(since, key), now); }
    }
  }

  lemma ForgetKeepsAll(w: Window, fails: map<string, seq<int>>, since: map<string, seq<int>>, key: string, now: int)
    requires AllRemembered(w, fails, since, now)
    ensures AllRemembered(w, fails - {key}, since - {key}, now)
  {
    forall k ensures Remembers(w, Times(fails - {key}, k), Times(since - {key}, k), now) {
      assert Remembers(w, Times(fails, k), Times(since, k), now);
      if k == key {
        assert Times(fails - {key}, k) == [] && Times(since - {key}, k) == [];
      } else {
        assert Times(fails - {key}, k) == Times(fails, k) && Times(since - {key}, k) == Times(since, k);
      }
    }
  }

  /** `since` is, for every account, all failures since its last reset. */
  class FailureTracker {
    const w: Window
    const clock: Clock
    var fails: map<string, seq<int>>
    ghost var since: map<string, seq<int>>
    ghost var asOf: int  // the clock at the last use

    ghost predicate Valid()
      reads this, clock
    {
      asOf <= clock.now && AllRemembered(w, fails, since, asOf)
    }

    constructor (limit: int, span: int, clock: Clock)
      ensures Valid() && w == Window(limit, span) && this.clock == clock && since == map[]
    {
      w, this.clock, fails, since, asOf := Window(limit, span), clock, map[], map[], clock.now;
    }

    method Prune(key: string, now: int) returns (valid: seq<int>)
      modifies this`fails
      ensures valid == Recent(Times(old(fails), key), now - w.span) && fails == PrunedMap(old(fails), key, valid)
    {
      valid := KeepRecent(Times(fails, key), now - w.span);
      if |valid| == 0 { fails := fails - {key}; } else { fails := fails[key := valid]; }
    }

    method Blocked(key: string) returns (blocked: bool)
      requires Valid()
      modifies this`fails, this`asOf, clock
      ensures Valid() && old(clock.now) <= clock.now
      ensures blocked <==> Full(w, Times(since, key), clock.now)
    {
      var now := clock.Read();
      PruneKeepsAll(w, fails, since, key, asOf, now);
      asOf := now;
      var valid := Prune(key, now);
      blocked := |valid| >= w.limit;
    }

    method Fail(key: string)
      requires Valid()
      modifies this`fails, this`since, this`asOf, clock
      ensures Valid() && old(clock.now) <= clock.now
      ensures since == Appended(old(since), key, clock.now)
    {
      var now := clock.Read();
      PruneKeepsAll(w, fails, since, key, asOf, now);
      asOf := now;
      var valid := Prune(key, now);
      PrunedMapTimes(old(fails), key, valid, key);
      AppendKeepsAll(w, fails, since, key, now);
      fails := fails[key := valid + [now]];
      since := Appended(since, key, now);
    }

    method Reset(key: string)
      requires Valid()
      modifies this`fails, this`since
      ensures Valid() && since == old(since) - {key}
    {
      ForgetKeepsAll(w, fails, since, key, asOf);
      fails := fails - {key};
      since := since - {key};
    }
  }
}
