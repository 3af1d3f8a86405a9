/** The token-bucket limiter and its background cleaner. Times are integers
    (nanoseconds); the refill is the exact quotient, rounded toward zero. */
module TokenBucket {
  import opened Clocks
  import opened Options

  datatype Limits = Limits(rate: int, interval: int)

  datatype Bucket = Bucket(tokens: int, lastSeen: int)

  /** A request reads the clock twice when the visitor is known: once to compute
      the refill and once to stamp lastSeen. A probe is the cleaner's look at one
      visitor. */
  datatype Event =
    | Request(ip: string, checked: int, stamped: int)
    | Probe(ip: string, at: int)

  type Visitors = map<string, Bucket>

  /** Go's conversion to int drops the fraction. */
  function TowardZero(a: int, b: int): int
    requires b > 0
  {
    if a >= 0 then a / b else -((-a) / b)
  }

  function Refilled(l: Limits, b: Bucket, checked: int): int
    requires l.interval > 0
  {
    var t := b.tokens + TowardZero((checked - b.lastSeen) * l.rate, l.interval);
    if t > l.rate then l.rate else t
  }

  predicate Grants(l: Limits, b: Option<Bucket>, e: Event)
    requires l.interval > 0 && e.Request?
  {
    b.None? || Refilled(l, b.value, e.checked) > 0
  }

  function Spend(l: Limits, b: Option<Bucket>, e: Event): Bucket
    requires l.interval > 0 && e.Request?
  {
    if b.None? then Bucket(l.rate - 1, e.stamped)
    else
      var t := Refilled(l, b.value, e.checked);
      Bucket(if t <= 0 then t else t - 1, e.stamped)
  }

  function Lookup(v: Visitors, ip: string): Option<Bucket> {
    if ip in v then Some(v[ip]) else None
  }

  predicate Idle(l: Limits, b: Bucket, at: int) {
    at - b.lastSeen > l.interval * 2
  }

  function Step(l: Limits, v: Visitors, e: Event): Visitors
    requires l.interval > 0
  {
    match e
    case Request(ip, _, _) => v[ip := Spend(l, Lookup(v, ip), e)]
    case Probe(ip, at) => if ip in v && Idle(l, v[ip], at) then v - {ip} else v
  }

  function Run(l: Limits, v: Visitors, evs: seq<Event>): Visitors
    requires l.interval > 0
    decreases |evs|
  {
    if evs == [] then v else Run(l, Step(l, v, evs[0]), evs[1..])
  }

  /** The answers one visitor gets over a trace of the whole limiter. */
  function AnswersTo(l: Limits, v: Visitors, evs: seq<Event>, ip: string): seq<bool>
    requires l.interval > 0
    decreases |evs|
  {
    if evs == [] then []
    else
      var rest := AnswersTo(l, Step(l, v, evs[0]), evs[1..], ip);
      if evs[0].Request? && evs[0].ip == ip then [Grants(l, Lookup(v, ip), evs[0])] + rest else rest
  }

  function RequestsOf(evs: seq<Event>, ip: string): (r: seq<Event>)
    ensures forall i :: 0 <= i < |r| ==> r[i].Request?
  {
    if evs == [] then []
    else if evs[0].Request? && evs[0].ip == ip then [evs[0]] + RequestsOf(evs[1..], ip)
    else RequestsOf(evs[1..], ip)
  }

  /** One bucket that nobody else touches and no cleaner ever deletes. */
  function Alone(l: Limits, b: Option<Bucket>, reqs: seq<Event>): (r: seq<bool>)
    requires l.interval > 0 && forall i :: 0 <= i < |reqs| ==> reqs[i].Request?
    ensures |r| == |reqs|
    decreases |reqs|
  {
    if reqs == [] then []
    else [Grants(l, b, reqs[0])] + Alone(l, Some(Spend(l, b, reqs[0])), reqs[1..])
  }

  function Begins(e: Event): int {
    if e.Request? then e.checked else e.at
  }

  function Ends(e: Event): int {
    if e.Request? then e.stamped else e.at
  }

  /** The clock never goes back, within an event or from one to the next. */
  ghost predicate InOrder(evs: seq<Event>, start: int) {
    evs == [] || (start <= Begins(evs[0]) <= Ends(evs[0]) && InOrder(evs[1..], Ends(evs[0])))
  }

  // ---- The cleaner cannot be observed ---------------------------------------

  ghost predicate Bounded(l: Limits, b: Bucket, now: int) {
    0 <= b.tokens <= l.rate && b.lastSeen <= now
  }

  /** The shared limiter's bucket against the one nobody cleans: the same, or
      deleted because the other has idled past the threshold. */
  ghost predicate Hides(l: Limits, shared: Option<Bucket>, alone: Option<Bucket>, now: int) {
    && (alone.Some? ==> Bounded(l, alone.value, now))
    && (shared == alone || (shared.None? && alone.Some? && Idle(l, alone.value, now)))
  }

  lemma QuotientAtLeast(x: int, d: int, q: int)
    requires d > 0 && x >= q * d
    ensures x / d >= q
  {
    assert x == d * (x / d) + x % d;
    if x / d < q {
      MulMono(d, x / d, q - 1);
    }
  }

  lemma MulMono(d: int, a: int, b: int)
    requires d >= 0 && a <= b
    ensures d * a <= d * b
  {
    assert d * (b - a) >= 0;
  }

  lemma IdleRefillsToCap(l: Limits, b: Bucket, now: int)
    requires l.rate >= 1 && l.interval > 0 && b.tokens >= 0 && Idle(l, b, now)
    ensures Refilled(l, b, now) == l.rate
  {
    var elapsed := now - b.lastSeen;
    MulMono(l.rate, l.interval * 2, elapsed);
    assert l.rate * (l.interval * 2) == (2 * l.rate) * l.interval;
    assert elapsed * l.rate >= 0 by { MulMono(l.rate, 0, elapsed); }
    QuotientAtLeast(elapsed * l.rate, l.interval, 2 * l.rate);
  }

  lemma RefillNonNegative(l: Limits, b: Bucket, now: int)
    requires l.rate >= 0 && l.interval > 0 && b.lastSeen <= now
    ensures (now - b.lastSeen) * l.rate >= 0
    ensures TowardZero((now - b.lastSeen) * l.rate, l.interval) == ((now - b.lastSeen) * l.rate) / l.interval >= 0
  {
    MulMono(l.rate, 0, now - b.lastSeen);
  }

  lemma RequestKeepsHiding(l: Limits, shared: Option<Bucket>, alone: Option<Bucket>, e: Event, now: int)
    requires l.rate >= 1 && l.interval > 0 && Hides(l, shared, alone, now)
    requires e.Request? && now <= e.checked <= e.stamped
    ensures Grants(l, shared, e) == Grants(l, alone, e)
    ensures Spend(l, shared, e) == Spend(l, alone, e) && Bounded(l, Spend(l, alone, e), e.stamped)
  {
    if alone.Some? {
      RefillNonNegative(l, alone.value, e.checked);
      if shared.None? { IdleRefillsToCap(l, alone.value, e.checked); }
    }
  }

  /** Each visitor is served as if it were alone and never cleaned up: whatever
      the other visitors do and wherever the cleaner strikes, the answers are
      those of one untouched bucket. */
  lemma {:induction false} ServedAlone(l: Limits, v: Visitors, alone: Option<Bucket>, evs: seq<Event>, ip: string,
                                       now: int)
    requires l.rate >= 1 && l.interval > 0 && InOrder(evs, now) && Hides(l, Lookup(v, ip), alone, now)
    ensures AnswersTo(l, v, evs, ip) == Alone(l, alone, RequestsOf(evs, ip))
    decreases |evs|
  {
    if evs != [] {
      var e := evs[0];
      var v' := Step(l, v, e);
      if e.Request? && e.ip == ip {
        RequestKeepsHiding(l, Lookup(v, ip), alone, e, now);
        ServedAlone(l, v', Some(Spend(l, alone, e)), evs[1..], ip, e.stamped);
      } else {
        ServedAlone(l, v', alone, evs[1..], ip, Ends(e));
      }
    }
  }

  function RequestsOnly(evs: seq<Event>): seq<Event> {
    if evs == [] then []
    else if evs[0].Request? then [evs[0]] + RequestsOnly(evs[1..])
    else RequestsOnly(evs[1..])
  }

  lemma {:induction false} DroppingProbes(evs: seq<Event>, ip: string, now: int)
    requires InOrder(evs, now)
    ensures RequestsOf(RequestsOnly(evs), ip) == RequestsOf(evs, ip)
    ensures InOrder(RequestsOnly(evs), now)
    decreases |evs|
  {
    if evs != [] {
      DroppingProbes(evs[1..], ip, Ends(evs[0]));
      if evs[0].Request? {
        assert ([evs[0]] + RequestsOnly(evs[1..]))[1..] == RequestsOnly(evs[1..]);
      } else {
        OrderFromEarlier(RequestsOnly(evs), Ends(evs[0]), now);
      }
    }
  }

  lemma OrderFromEarlier(evs: seq<Event>, later: int, earlier: int)
    requires InOrder(evs, later) && earlier <= later
    ensures InOrder(evs, earlier)
  {
  }

  /** No visitor can tell the trace with its cleanups from the one without. */
  ghost predicate CleanupHidden(l: Limits, evs: seq<Event>)
    requires l.interval > 0
  {
    forall ip :: AnswersTo(l, map[], evs, ip) == AnswersTo(l, map[], RequestsOnly(evs), ip)
  }

  lemma CleanupUnobservable(l: Limits, evs: seq<Event>, start: int)
    requires l.rate >= 1 && l.interval > 0 && InOrder(evs, start)
    ensures CleanupHidden(l, evs)
  {
    forall ip ensures AnswersTo(l, map[], evs, ip) == AnswersTo(l, map[], RequestsOnly(evs), ip) {
      DroppingProbes(evs, ip, start);
      ServedAlone(l, map[], None, evs, ip, start);
      ServedAlone(l, map[], None, RequestsOnly(evs), ip, start);
    }
  }

  /** With a rate below one a visitor is refused until the cleaner forgets it. */
  function ForgottenVisitor(l: Limits, start: int): seq<Event> {
    var later := start + l.interval * 2 + 1;
    [Request("", start, start), Probe("", later), Request("", later, later)]
  }

  lemma CleanupObservableBelowOne(l: Limits, start: int)
    requires l.rate < 1 && l.interval > 0
    ensures InOrder(ForgottenVisitor(l, start), start) && !CleanupHidden(l, ForgottenVisitor(l, start))
  {
    var evs := ForgottenVisitor(l, start);
    var first, probe, last := evs[0], evs[1], evs[2];
    assert evs[1..] == [probe, last] && [probe, last][1..] == [last] && [last][1..] == [];
    assert InOrder([last], probe.at) && InOrder([probe, last], start);
    var v1: Visitors := map["" := Bucket(l.rate - 1, start)];
    assert Step(l, map[], first) == v1;
    assert Step(l, v1, probe) == map[];
    assert AnswersTo(l, map[], [last], "") == [true];
    assert AnswersTo(l, v1, [probe, last], "") == [true];
    assert AnswersTo(l, map[], evs, "") == [true, true];
    assert RequestsOnly([last]) == [last] && RequestsOnly([probe, last]) == [last];
    assert RequestsOnly(evs) == [first, last] && [first, last][1..] == [last];
    assert AnswersTo(l, v1, [last], "") == [false];
    assert AnswersTo(l, map[], [first, last], "") == [true, false];
  }

  ghost predicate AlwaysHidden(l: Limits)
    requires l.interval > 0
  {
    forall evs, start :: InOrder(evs, start) ==> CleanupHidden(l, evs)
  }

  /** Cleanup is invisible on every trace exactly for rates of at least one. */
  lemma CleanupUnobservableIff(l: Limits)
    requires l.interval > 0
    ensures AlwaysHidden(l) <==> l.rate >= 1
  {
    if l.rate >= 1 {
      forall evs, start | InOrder(evs, start) ensures CleanupHidden(l, evs) {
        CleanupUnobservable(l, evs, start);
      }
    } else {
      CleanupObservableBelowOne(l, 0);
      var evs := ForgottenVisitor(l, 0);
      assert InOrder(evs, 0) && !CleanupHidden(l, evs);
    }
  }

  // ---- How many requests get through ----------------------------------------

  function Granted(answers: seq<bool>): nat {
    if answers == [] then 0 else (if answers[0] then 1 else 0) + Granted(answers[1..])
  }

  function After(l: Limits, b: Option<Bucket>, reqs: seq<Event>): Option<Bucket>
    requires l.interval > 0 && forall i :: 0 <= i < |reqs| ==> reqs[i].Request?
    decreases |reqs|
  {
    if reqs == [] then b else After(l, Some(Spend(l, b, reqs[0])), reqs[1..])
  }

  lemma QuotientsAdd(x: int, y: int, d: int)
    requires d > 0
    ensures x / d + y / d <= (x + y) / d
  {
    assert x == d * (x / d) + x % d && y == d * (y / d) + y % d;
    assert x + y >= d * (x / d) + d * (y / d) == (x / d + y / d) * d;
    QuotientAtLeast(x + y, d, x / d + y / d);
  }

  lemma QuotientMono(x: int, y: int, d: int)
    requires d > 0 && x <= y
    ensures x / d <= y / d
  {
    assert x == d * (x / d) + x % d;
    QuotientAtLeast(y, d, x / d);
  }

  /** What flows in before a request and what can flow in after it fit in what can flow in over both. */
  lemma FlowsAdd(l: Limits, seen: int, checked: int, stamped: int, t: int)
    requires l.rate >= 1 && l.interval > 0 && seen <= checked <= stamped <= t
    ensures ((checked - seen) * l.rate) / l.interval + (l.rate * (t - stamped)) / l.interval
            <= (l.rate * (t - seen)) / l.interval
  {
    var x, y := (checked - seen) * l.rate, l.rate * (t - stamped);
    QuotientsAdd(x, y, l.interval);
    assert x + y == l.rate * (t - stamped + checked - seen);
    MulMono(l.rate, t - stamped + checked - seen, t - seen);
    QuotientMono(x + y, l.rate * (t - seen), l.interval);
  }

  /** One request: a token less when it is granted, and no more flows in than flowed. */
  lemma SpendOne(l: Limits, b: Bucket, e: Event)
    requires l.rate >= 1 && l.interval > 0 && 0 <= b.tokens <= l.rate
    requires e.Request? && b.lastSeen <= e.checked <= e.stamped
    ensures var b' := Spend(l, Some(b), e);
            && 0 <= b'.tokens <= l.rate && b'.lastSeen == e.stamped
            && b'.tokens + (if Grants(l, Some(b), e) then 1 else 0)
               <= b.tokens + ((e.checked - b.lastSeen) * l.rate) / l.interval
  {
    RefillNonNegative(l, b, e.checked);
  }

  /** From a known bucket: what is in it plus what can flow in. */
  lemma {:induction false} SpendBound(l: Limits, b: Bucket, reqs: seq<Event>, t: int)
    requires l.rate >= 1 && l.interval > 0 && 0 <= b.tokens <= l.rate && b.lastSeen <= t
    requires forall i :: 0 <= i < |reqs| ==> reqs[i].Request? && reqs[i].stamped <= t
    requires InOrder(reqs, b.lastSeen)
    ensures Granted(Alone(l, Some(b), reqs)) <= b.tokens + (l.rate * (t - b.lastSeen)) / l.interval
    decreases |reqs|
  {
    if reqs == [] {
      MulMono(l.rate, 0, t - b.lastSeen);
      QuotientAtLeast(l.rate * (t - b.lastSeen), l.interval, 0);
    } else {
      var e := reqs[0];
      SpendOne(l, b, e);
      FlowsAdd(l, b.lastSeen, e.checked, e.stamped, t);
      SpendBound(l, Spend(l, Some(b), e), reqs[1..], t);
      var rest := Alone(l, Some(Spend(l, Some(b), e)), reqs[1..]);
      assert Alone(l, Some(b), reqs)[1..] == rest;
    }
  }

  /** From any reachable state, known or not: at most a full bucket plus what
      flows in between s and t. */
  lemma BurstBound(l: Limits, b: Option<Bucket>, reqs: seq<Event>, s: int, t: int)
    requires l.rate >= 1 && l.interval > 0 && s <= t
    requires forall i :: 0 <= i < |reqs| ==> reqs[i].Request? && reqs[i].stamped <= t
    requires reqs != [] && b.Some? ==> Bounded(l, b.value, reqs[0].checked)
    requires InOrder(reqs, s)
    ensures Granted(Alone(l, b, reqs)) <= l.rate + (l.rate * (t - s)) / l.interval
  {
    MulMono(l.rate, 0, t - s);
    QuotientAtLeast(l.rate * (t - s), l.interval, 0);
    if reqs != [] {
      var e := reqs[0];
      var b' := Spend(l, b, e);
      if b.Some? { RefillNonNegative(l, b.value, e.checked); }
      SpendBound(l, b', reqs[1..], t);
      MulMono(l.rate, t - e.stamped, t - s);
      QuotientMono(l.rate * (t - e.stamped), l.rate * (t - s), l.interval);
    }
  }

  lemma {:induction false} AloneSplits(l: Limits, b: Option<Bucket>, reqs: seq<Event>, i: nat)
    requires l.interval > 0 && i <= |reqs| && forall k :: 0 <= k < |reqs| ==> reqs[k].Request?
    ensures Alone(l, b, reqs)[i..] == Alone(l, After(l, b, reqs[..i]), reqs[i..])
    decreases i
  {
    if i > 0 {
      AloneSplits(l, Some(Spend(l, b, reqs[0])), reqs[1..], i - 1);
      assert reqs[..i][1..] == reqs[1..][..i - 1] && reqs[1..][i - 1..] == reqs[i..];
      assert reqs[..i][0] == reqs[0];
    }
  }

  lemma {:induction false} AlonePrefix(l: Limits, b: Option<Bucket>, reqs: seq<Event>, n: nat)
    requires l.interval > 0 && n <= |reqs| && forall k :: 0 <= k < |reqs| ==> reqs[k].Request?
    ensures Alone(l, b, reqs)[..n] == Alone(l, b, reqs[..n])
    decreases n
  {
    if n > 0 {
      AlonePrefix(l, Some(Spend(l, b, reqs[0])), reqs[1..], n - 1);
      assert reqs[..n][1..] == reqs[1..][..n - 1] && reqs[..n][0] == reqs[0];
    }
  }

  lemma {:induction false} ReachedBucket(l: Limits, b: Option<Bucket>, reqs: seq<Event>, i: nat, start: int)
    requires l.rate >= 1 && l.interval > 0 && i < |reqs| && InOrder(reqs, start)
    requires (b.Some? ==> Bounded(l, b.value, start)) && forall k :: 0 <= k < |reqs| ==> reqs[k].Request?
    ensures var r := After(l, b, reqs[..i]);
            (r.Some? ==> Bounded(l, r.value, reqs[i].checked)) && InOrder(reqs[i..], reqs[i].checked)
    decreases i
  {
    if i > 0 {
      if b.Some? { RefillNonNegative(l, b.value, reqs[0].checked); }
      ReachedBucket(l, Some(Spend(l, b, reqs[0])), reqs[1..], i - 1, reqs[0].stamped);
      assert reqs[..i][1..] == reqs[1..][..i - 1] && reqs[1..][i - 1..] == reqs[i..];
      assert reqs[..i][0] == reqs[0];
    }
  }

  lemma {:induction false} OrderOfPrefix(reqs: seq<Event>, n: nat, start: int)
    requires n <= |reqs| && InOrder(reqs, start)
    ensures InOrder(reqs[..n], start)
    decreases n
  {
    if n > 0 {
      OrderOfPrefix(reqs[1..], n - 1, Ends(reqs[0]));
      assert reqs[..n][1..] == reqs[1..][..n - 1];
    }
  }

  lemma SliceBound(l: Limits, reqs: seq<Event>, start: int, i: nat, j: nat, s: int, t: int)
    requires l.rate >= 1 && l.interval > 0 && InOrder(reqs, start) && i < j <= |reqs|
    requires forall k :: 0 <= k < |reqs| ==> reqs[k].Request?
    requires s <= reqs[i].checked && s <= t && forall k :: i <= k < j ==> reqs[k].stamped <= t
    ensures Granted(Alone(l, None, reqs)[i..j]) <= l.rate + (l.rate * (t - s)) / l.interval
  {
    ReachedBucket(l, None, reqs, i, start);
    var b, tail, n := After(l, None, reqs[..i]), reqs[i..], j - i;
    AloneSplits(l, None, reqs, i);
    AlonePrefix(l, b, tail, n);
    OrderOfPrefix(tail, n, reqs[i].checked);
    OrderFromEarlier(tail[..n], reqs[i].checked, s);
    assert forall k :: 0 <= k < n ==> tail[..n][k] == reqs[i + k];
    BurstBound(l, b, tail[..n], s, t);
    assert Alone(l, None, reqs)[i..j] == Alone(l, None, reqs)[i..][..n];
  }

  /** Whatever happened before, and however often the cleaner ran: of the requests
      of one visitor that lie between times s and t, at most a burst of `rate` and
      what the rate allows for t - s are let through. */
  lemma WindowBound(l: Limits, evs: seq<Event>, ip: string, start: int, i: nat, j: nat, s: int, t: int)
    requires l.rate >= 1 && l.interval > 0 && InOrder(evs, start)
    requires i < j <= |RequestsOf(evs, ip)|
    requires s <= RequestsOf(evs, ip)[i].checked && s <= t
    requires forall k :: i <= k < j ==> RequestsOf(evs, ip)[k].stamped <= t
    ensures |AnswersTo(l, map[], evs, ip)| == |RequestsOf(evs, ip)|
    ensures Granted(AnswersTo(l, map[], evs, ip)[i..j]) <= l.rate + (l.rate * (t - s)) / l.interval
  {
    ServedAlone(l, map[], None, evs, ip, start);
    OrderOfRequests(evs, ip, start);
    SliceBound(l, RequestsOf(evs, ip), start, i, j, s, t);
  }

  lemma {:induction false} OrderOfRequests(evs: seq<Event>, ip: string, start: int)
    requires InOrder(evs, start)
    ensures InOrder(RequestsOf(evs, ip), start)
    decreases |evs|
  {
    if evs != [] {
      OrderOfRequests(evs[1..], ip, Ends(evs[0]));
      var rest := RequestsOf(evs[1..], ip);
      if evs[0].Request? && evs[0].ip == ip {
        assert ([evs[0]] + rest)[1..] == rest;
      } else {
        OrderFromEarlier(rest, Ends(evs[0]), start);
      }
    }
  }

  /** Each request comes less than one token's worth of time after the last one. */
  ghost predicate Hurried(l: Limits, reqs: seq<Event>, last: int) {
    reqs == [] ||
    (reqs[0].Request? && last <= reqs[0].checked && (reqs[0].checked - last) * l.rate < l.interval
     && Hurried(l, reqs[1..], reqs[0].stamped))
  }

  lemma SmallQuotient(x: int, d: int)
    requires 0 <= x < d
    ensures x / d == 0
  {
  }

  lemma {:induction false} HurriedDrains(l: Limits, b: Bucket, reqs: seq<Event>, k: nat)
    requires l.rate >= 1 && l.interval > 0 && 0 <= b.tokens <= l.rate
    requires (forall i :: 0 <= i < |reqs| ==> reqs[i].Request?) && Hurried(l, reqs, b.lastSeen) && k < |reqs|
    ensures Alone(l, Some(b), reqs)[k] <==> k < b.tokens
    decreases |reqs|
  {
    var e := reqs[0];
    RefillNonNegative(l, b, e.checked);
    SmallQuotient((e.checked - b.lastSeen) * l.rate, l.interval);
    if k > 0 { HurriedDrains(l, Spend(l, Some(b), e), reqs[1..], k - 1); }
  }

  lemma AloneStarves(l: Limits, reqs: seq<Event>, k: nat)
    requires l.rate >= 1 && l.interval > 0 && k < |reqs|
    requires (forall i :: 0 <= i < |reqs| ==> reqs[i].Request?) && Hurried(l, reqs[1..], reqs[0].stamped)
    ensures Alone(l, None, reqs)[k] <==> k < l.rate
  {
    if k > 0 { HurriedDrains(l, Bucket(l.rate - 1, reqs[0].stamped), reqs[1..], k - 1); }
  }

  /** A new visitor that never pauses for a token's worth of time is let through
      exactly `rate` times, however long it keeps asking and whatever the others and the
      cleaner do: refused requests push lastSeen on as well, so the fractions of a token
      are lost. */
  lemma HurriedVisitorStarves(l: Limits, evs: seq<Event>, ip: string, start: int, k: nat)
    requires l.rate >= 1 && l.interval > 0 && InOrder(evs, start) && k < |RequestsOf(evs, ip)|
    requires Hurried(l, RequestsOf(evs, ip)[1..], RequestsOf(evs, ip)[0].stamped)
    ensures |AnswersTo(l, map[], evs, ip)| == |RequestsOf(evs, ip)|
    ensures AnswersTo(l, map[], evs, ip)[k] <==> k < l.rate
  {
    ServedAlone(l, map[], None, evs, ip, start);
    AloneStarves(l, RequestsOf(evs, ip), k);
  }

  lemma {:induction false} CountLeading(answers: seq<bool>, n: nat)
    requires forall k :: 0 <= k < |answers| ==> (answers[k] <==> k < n)
    ensures Granted(answers) == if |answers| < n then |answers| else n
    decreases |answers|
  {
    if answers != [] {
      forall k | 0 <= k < |answers| - 1 ensures answers[1..][k] <==> k < n - 1 {
        assert answers[k + 1] <==> k + 1 < n;
      }
      if n == 0 { CountLeading(answers[1..], 0); } else { CountLeading(answers[1..], n - 1); }
    }
  }

  /** The same as a count: exactly min(n, rate) of n hurried requests. */
  lemma HurriedCount(l: Limits, evs: seq<Event>, ip: string, start: int)
    requires l.rate >= 1 && l.interval > 0 && InOrder(evs, start)
    requires RequestsOf(evs, ip) != [] ==> Hurried(l, RequestsOf(evs, ip)[1..], RequestsOf(evs, ip)[0].stamped)
    ensures var n := |RequestsOf(evs, ip)|;
            Granted(AnswersTo(l, map[], evs, ip)) == if n < l.rate then n else l.rate
  {
    ServedAlone(l, map[], None, evs, ip, start);
    var reqs := RequestsOf(evs, ip);
    forall k | 0 <= k < |reqs| ensures Alone(l, None, reqs)[k] <==> k < l.rate {
      AloneStarves(l, reqs, k);
    }
    CountLeading(Alone(l, None, reqs), l.rate);
  }

  // ---- How many requests must get through -----------------------------------

  lemma {:induction false} AfterOneMore(l: Limits, b: Option<Bucket>, reqs: seq<Event>, k: nat)
    requires l.interval > 0 && k < |reqs| && forall j :: 0 <= j < |reqs| ==> reqs[j].Request?
    ensures After(l, b, reqs[..k + 1]) == Some(Spend(l, After(l, b, reqs[..k]), reqs[k]))
    decreases k
  {
    var more := reqs[..k + 1];
    assert more[0] == reqs[0] && more[1..] == reqs[1..][..k];
    if k > 0 {
      assert reqs[..k][0] == reqs[0] && reqs[..k][1..] == reqs[1..][..k - 1];
      AfterOneMore(l, Some(Spend(l, b, reqs[0])), reqs[1..], k - 1);
    }
  }

  /** The answer to request k is that of the bucket as it is by then. */
  lemma AnswerIs(l: Limits, evs: seq<Event>, ip: string, start: int, k: nat)
    requires l.rate >= 1 && l.interval > 0 && InOrder(evs, start) && k < |RequestsOf(evs, ip)|
    ensures |AnswersTo(l, map[], evs, ip)| == |RequestsOf(evs, ip)|
    ensures var reqs := RequestsOf(evs, ip);
            AnswersTo(l, map[], evs, ip)[k] == Grants(l, After(l, None, reqs[..k]), reqs[k])
  {
    var reqs := RequestsOf(evs, ip);
    ServedAlone(l, map[], None, evs, ip, start);
    AloneSplits(l, None, reqs, k);
    assert Alone(l, None, reqs)[k..][0] == Alone(l, None, reqs)[k];
  }

  /** In any run: a visitor's first request is granted, and so is every one that comes a
      token's worth of time after the last. */
  lemma PausedIsGranted(l: Limits, evs: seq<Event>, ip: string, start: int, k: nat)
    requires l.rate >= 1 && l.interval > 0 && InOrder(evs, start) && k < |RequestsOf(evs, ip)|
    requires var reqs := RequestsOf(evs, ip); k > 0 ==> (reqs[k].checked - reqs[k - 1].stamped) * l.rate >= l.interval
    ensures |AnswersTo(l, map[], evs, ip)| == |RequestsOf(evs, ip)| && AnswersTo(l, map[], evs, ip)[k]
  {
    var reqs := RequestsOf(evs, ip);
    AnswerIs(l, evs, ip, start, k);
    OrderOfRequests(evs, ip, start);
    if k > 0 {
      AfterOneMore(l, None, reqs, k - 1);
      ReachedBucket(l, None, reqs, k, start);
      RefillsOne(l, After(l, None, reqs[..k]).value, reqs[k].checked);
    }
  }

  lemma RefillsOne(l: Limits, b: Bucket, now: int)
    requires l.rate >= 1 && l.interval > 0 && b.tokens >= 0 && (now - b.lastSeen) * l.rate >= l.interval
    ensures Refilled(l, b, now) > 0
  {
    QuotientAtLeast((now - b.lastSeen) * l.rate, l.interval, 1);
  }

  lemma RefillDrains(l: Limits, b: Bucket, reqs: seq<Event>, k: nat, t: int)
    requires l.rate >= 1 && l.interval > 0 && k < |reqs| && (forall i :: 0 <= i < |reqs| ==> reqs[i].Request?)
    requires t == Refilled(l, b, reqs[0].checked) && 0 <= t <= l.rate && Hurried(l, reqs[1..], reqs[0].stamped)
    ensures Alone(l, Some(b), reqs)[k] <==> k < t
  {
    if k > 0 { HurriedDrains(l, Spend(l, Some(b), reqs[0]), reqs[1..], k - 1); }
  }

  lemma RefillSays(l: Limits, b: Bucket, checked: int) returns (flow: int)
    requires l.rate >= 0 && l.interval > 0 && b.lastSeen <= checked
    ensures flow == ((checked - b.lastSeen) * l.rate) / l.interval && flow >= 0
    ensures Refilled(l, b, checked) == if b.tokens + flow > l.rate then l.rate else b.tokens + flow
  {
    RefillNonNegative(l, b, checked);
    flow := ((checked - b.lastSeen) * l.rate) / l.interval;
  }

  /** A pause and then hurried requests: what was left, and what flowed in, up to the rate. */
  lemma PauseAlone(l: Limits, b: Bucket, e: Event, more: seq<Event>, k: nat)
    requires l.rate >= 1 && l.interval > 0 && 0 <= b.tokens <= l.rate && k <= |more|
    requires e.Request? && (forall i :: 0 <= i < |more| ==> more[i].Request?) && b.lastSeen <= e.checked
    requires Hurried(l, more, e.stamped)
    ensures Alone(l, Some(b), [e] + more)[k] <==>
            k + 1 <= l.rate && k + 1 <= b.tokens + ((e.checked - b.lastSeen) * l.rate) / l.interval
  {
    var flow := RefillSays(l, b, e.checked);
    assert ([e] + more)[1..] == more;
    RefillDrains(l, b, [e] + more, k, Refilled(l, b, e.checked));
  }

  /** From request i + 1 on the answers depend on the bucket that request i left. */
  lemma AloneFurther(l: Limits, reqs: seq<Event>, i: nat, k: nat, b: Bucket)
    requires l.interval > 0 && i < k < |reqs| && (forall j :: 0 <= j < |reqs| ==> reqs[j].Request?)
    requires After(l, None, reqs[..i + 1]) == Some(b)
    ensures Alone(l, None, reqs)[k] == Alone(l, Some(b), [reqs[i + 1]] + reqs[i + 2..k + 1])[k - i - 1]
  {
    AloneSplits(l, None, reqs, i + 1);
    AlonePrefix(l, Some(b), reqs[i + 1..], k - i);
    PausedStretch(Alone(l, None, reqs), i, k);
    assert reqs[i + 1..][..k - i] == [reqs[i + 1]] + reqs[i + 2..k + 1];
  }

  /** The same further on, for the bucket that request i left. */
  lemma PauseAfter(l: Limits, reqs: seq<Event>, start: int, i: nat, k: nat, b: Bucket)
    requires l.rate >= 1 && l.interval > 0 && InOrder(reqs, start) && i < k < |reqs|
    requires (forall j :: 0 <= j < |reqs| ==> reqs[j].Request?) && After(l, None, reqs[..i + 1]) == Some(b)
    requires Hurried(l, reqs[i + 2..k + 1], reqs[i + 1].stamped)
    ensures Alone(l, None, reqs)[k] <==>
            && k - i <= l.rate
            && k - i <= b.tokens + ((reqs[i + 1].checked - b.lastSeen) * l.rate) / l.interval
  {
    ReachedBucket(l, None, reqs, i + 1, start);
    AloneFurther(l, reqs, i, k, b);
    PauseAlone(l, b, reqs[i + 1], reqs[i + 2..k + 1], k - i - 1);
  }

  /** The same of a visitor's requests in any run. */
  lemma PauseFrom(l: Limits, evs: seq<Event>, ip: string, start: int, i: nat, k: nat, b: Bucket)
    requires l.rate >= 1 && l.interval > 0 && InOrder(evs, start) && i < k < |RequestsOf(evs, ip)|
    requires After(l, None, RequestsOf(evs, ip)[..i + 1]) == Some(b)
    requires var reqs := RequestsOf(evs, ip); Hurried(l, reqs[i + 2..k + 1], reqs[i + 1].stamped)
    ensures |AnswersTo(l, map[], evs, ip)| == |RequestsOf(evs, ip)|
    ensures AnswersTo(l, map[], evs, ip)[k] <==>
            && k - i <= l.rate
            && k - i <= b.tokens + ((RequestsOf(evs, ip)[i + 1].checked - b.lastSeen) * l.rate) / l.interval
  {
    ServedAlone(l, map[], None, evs, ip, start);
    OrderOfRequests(evs, ip, start);
    PauseAfter(l, RequestsOf(evs, ip), start, i, k, b);
  }

  /** In any run: after a refusal and a pause p a visitor that then hurries is let through
      exactly min(rate, floor(p * rate / interval)) times. */
  lemma PauseRefills(l: Limits, evs: seq<Event>, ip: string, start: int, i: nat, k: nat)
    requires l.rate >= 1 && l.interval > 0 && InOrder(evs, start) && i < k < |RequestsOf(evs, ip)|
    requires var reqs := RequestsOf(evs, ip); Hurried(l, reqs[i + 2..k + 1], reqs[i + 1].stamped)
    ensures |AnswersTo(l, map[], evs, ip)| == |RequestsOf(evs, ip)|
    ensures var reqs, answers := RequestsOf(evs, ip), AnswersTo(l, map[], evs, ip);
            var pause := reqs[i + 1].checked - reqs[i].stamped;
            !answers[i] ==> (answers[k] <==> k - i <= l.rate && k - i <= (pause * l.rate) / l.interval)
  {
    AnswerIs(l, evs, ip, start, i);
    if !AnswersTo(l, map[], evs, ip)[i] {
      OrderOfRequests(evs, ip, start);
      EmptyAfterRefusal(l, RequestsOf(evs, ip), i, start);
      PauseFrom(l, evs, ip, start, i, k, Bucket(0, RequestsOf(evs, ip)[i].stamped));
    }
  }

  /** At any time in any trace: a visitor once refused stays refused for as long as it
      does not pause. */
  lemma RefusedWhileHurried(l: Limits, evs: seq<Event>, ip: string, start: int, i: nat, k: nat)
    requires l.rate >= 1 && l.interval > 0 && InOrder(evs, start) && i <= k < |RequestsOf(evs, ip)|
    requires Hurried(l, RequestsOf(evs, ip)[i + 1..k + 1], RequestsOf(evs, ip)[i].stamped)
    ensures |AnswersTo(l, map[], evs, ip)| == |RequestsOf(evs, ip)|
    ensures !AnswersTo(l, map[], evs, ip)[i] ==> !AnswersTo(l, map[], evs, ip)[k]
  {
    AnswerIs(l, evs, ip, start, i);
    if i < k {
      var reqs := RequestsOf(evs, ip);
      assert reqs[i + 1..k + 1][0] == reqs[i + 1] && reqs[i + 1..k + 1][1..] == reqs[i + 2..k + 1];
      HurriedAt(l, reqs[i + 1..k + 1], reqs[i].stamped, 0);
      SmallQuotient((reqs[i + 1].checked - reqs[i].stamped) * l.rate, l.interval);
      PauseRefills(l, evs, ip, start, i, k);
    }
  }

  /** What a new visitor has left after j hurried requests. */
  lemma {:induction false} HurriedLeaves(l: Limits, reqs: seq<Event>, j: nat)
    requires l.rate >= 1 && l.interval > 0 && 0 < j <= |reqs| && forall i :: 0 <= i < |reqs| ==> reqs[i].Request?
    requires Hurried(l, reqs[1..j], reqs[0].stamped)
    ensures After(l, None, reqs[..j]) == Some(Bucket(if j < l.rate then l.rate - j else 0, reqs[j - 1].stamped))
    decreases j
  {
    AfterOneMore(l, None, reqs, j - 1);
    if j > 1 {
      HurriedPrefix(l, reqs[1..j], reqs[0].stamped, j - 2);
      assert reqs[1..j][..j - 2] == reqs[1..j - 1];
      HurriedLeaves(l, reqs, j - 1);
      HurriedAt(l, reqs[1..j], reqs[0].stamped, j - 2);
      SmallQuotient((reqs[j - 1].checked - reqs[j - 2].stamped) * l.rate, l.interval);
    }
  }

  lemma {:induction false} HurriedAt(l: Limits, reqs: seq<Event>, last: int, i: nat)
    requires i < |reqs| && Hurried(l, reqs, last) && l.rate >= 0 && forall j :: 0 <= j < |reqs| ==> reqs[j].Request?
    ensures var before := if i == 0 then last else reqs[i - 1].stamped;
            0 <= (reqs[i].checked - before) * l.rate < l.interval
    decreases i
  {
    if i == 0 {
      MulMono(l.rate, 0, reqs[0].checked - last);
    } else {
      HurriedAt(l, reqs[1..], reqs[0].stamped, i - 1);
    }
  }

  /** In any run: a new visitor that hurries j times, pauses for p, and hurries again has
      what it left of its burst and floor(p * rate / interval) more, up to the rate. */
  lemma PauseTopsUp(l: Limits, evs: seq<Event>, ip: string, start: int, j: nat, k: nat)
    requires l.rate >= 1 && l.interval > 0 && InOrder(evs, start) && 0 < j <= k < |RequestsOf(evs, ip)|
    requires var reqs := RequestsOf(evs, ip); Hurried(l, reqs[1..j], reqs[0].stamped)
    requires var reqs := RequestsOf(evs, ip); Hurried(l, reqs[j + 1..k + 1], reqs[j].stamped)
    ensures |AnswersTo(l, map[], evs, ip)| == |RequestsOf(evs, ip)|
    ensures var reqs := RequestsOf(evs, ip); var pause := reqs[j].checked - reqs[j - 1].stamped;
            AnswersTo(l, map[], evs, ip)[k] <==>
              && k - j < l.rate
              && k - j < (if j < l.rate then l.rate - j else 0) + (pause * l.rate) / l.interval
  {
    HurriedLeaves(l, RequestsOf(evs, ip), j);
    PauseFrom(l, evs, ip, start, j - 1, k,
              Bucket(if j < l.rate then l.rate - j else 0, RequestsOf(evs, ip)[j - 1].stamped));
  }

  lemma PausedStretch<T>(s: seq<T>, i: nat, k: nat)
    requires i < k < |s|
    ensures var t := s[i + 1..][..k - i]; t[0] == s[i + 1] && t[k - i - 1] == s[k] && t[1..] == s[i + 2..k + 1]
  {
  }

  lemma EmptyAfterRefusal(l: Limits, reqs: seq<Event>, i: nat, start: int)
    requires l.rate >= 1 && l.interval > 0 && InOrder(reqs, start) && i + 1 < |reqs|
    requires (forall j :: 0 <= j < |reqs| ==> reqs[j].Request?) && !Grants(l, After(l, None, reqs[..i]), reqs[i])
    ensures After(l, None, reqs[..i + 1]) == Some(Bucket(0, reqs[i].stamped)) && reqs[i].stamped <= reqs[i + 1].checked
  {
    AfterOneMore(l, None, reqs, i);
    ReachedBucket(l, None, reqs, i, start);
    ReachedBucket(l, None, reqs, i + 1, start);
    RefillNonNegative(l, After(l, None, reqs[..i]).value, reqs[i].checked);
  }

  /** The same as a count, for n requests after the refusal. */
  lemma PauseCount(l: Limits, evs: seq<Event>, ip: string, start: int, i: nat, n: nat)
    requires l.rate >= 1 && l.interval > 0 && InOrder(evs, start) && n > 0 && i + n < |RequestsOf(evs, ip)|
    requires var reqs := RequestsOf(evs, ip); Hurried(l, reqs[i + 2..i + n + 1], reqs[i + 1].stamped)
    ensures |AnswersTo(l, map[], evs, ip)| == |RequestsOf(evs, ip)|
    ensures var reqs, answers := RequestsOf(evs, ip), AnswersTo(l, map[], evs, ip);
            var refill := ((reqs[i + 1].checked - reqs[i].stamped) * l.rate) / l.interval;
            !answers[i] ==>
              Granted(answers[i + 1..i + n + 1])
              == if n <= l.rate && n <= refill then n else if l.rate <= refill then l.rate else refill
  {
    var reqs, answers := RequestsOf(evs, ip), AnswersTo(l, map[], evs, ip);
    var refill := ((reqs[i + 1].checked - reqs[i].stamped) * l.rate) / l.interval;
    PauseAt(l, evs, ip, start, i, n, 0);
    if !answers[i] {
      var granted := answers[i + 1..i + n + 1];
      var most: nat := if l.rate <= refill then l.rate else refill;
      forall j | 0 <= j < n ensures granted[j] <==> j < most {
        PauseAt(l, evs, ip, start, i, n, j);
      }
      CountLeading(granted, most);
    }
  }

  lemma PauseAt(l: Limits, evs: seq<Event>, ip: string, start: int, i: nat, n: nat, j: nat)
    requires l.rate >= 1 && l.interval > 0 && InOrder(evs, start) && j < n && i + n < |RequestsOf(evs, ip)|
    requires var reqs := RequestsOf(evs, ip); Hurried(l, reqs[i + 2..i + n + 1], reqs[i + 1].stamped)
    ensures |AnswersTo(l, map[], evs, ip)| == |RequestsOf(evs, ip)|
    ensures var reqs, answers := RequestsOf(evs, ip), AnswersTo(l, map[], evs, ip);
            var refill := ((reqs[i + 1].checked - reqs[i].stamped) * l.rate) / l.interval;
            refill >= 0 && (!answers[i] ==> (answers[i + 1 + j] <==> j < l.rate && j < refill))
  {
    var reqs := RequestsOf(evs, ip);
    HurriedPrefix(l, reqs[i + 2..i + n + 1], reqs[i + 1].stamped, j);
    assert reqs[i + 2..i + n + 1][..j] == reqs[i + 2..i + j + 2];
    PauseRefills(l, evs, ip, start, i, i + 1 + j);
    OrderOfRequests(evs, ip, start);
    InOrderAt(reqs, start, i);
    RefillNonNegative(l, Bucket(0, reqs[i].stamped), reqs[i + 1].checked);
  }

  lemma {:induction false} InOrderAt(reqs: seq<Event>, start: int, i: nat)
    requires i + 1 < |reqs| && InOrder(reqs, start)
    ensures Ends(reqs[i]) <= Begins(reqs[i + 1])
    decreases i
  {
    if i > 0 { InOrderAt(reqs[1..], Ends(reqs[0]), i - 1); }
  }

  lemma {:induction false} HurriedPrefix(l: Limits, reqs: seq<Event>, last: int, n: nat)
    requires n <= |reqs| && Hurried(l, reqs, last)
    ensures Hurried(l, reqs[..n], last)
    decreases n
  {
    if n > 0 {
      HurriedPrefix(l, reqs[1..], reqs[0].stamped, n - 1);
      assert reqs[..n][1..] == reqs[1..][..n - 1] && reqs[..n][0] == reqs[0];
    }
  }

  // ---- The limiter ----------------------------------------------------------

  lemma {:induction false} RunAppend(l: Limits, v: Visitors, evs: seq<Event>, e: Event)
    requires l.interval > 0
    ensures Run(l, v, evs + [e]) == Step(l, Run(l, v, evs), e)
    decreases |evs|
  {
    if evs == [] {
      assert [e][1..] == [] && evs + [e] == [e];
    } else {
      RunAppend(l, Step(l, v, evs[0]), evs[1..], e);
      assert (evs + [e])[1..] == evs[1..] + [e];
    }
  }

  /** One more event adds the answer the limiter gives in the state it is in. */
  lemma {:induction false} AnswersAppend(l: Limits, v: Visitors, evs: seq<Event>, e: Event, ip: string)
    requires l.interval > 0
    ensures AnswersTo(l, v, evs + [e], ip) == AnswersTo(l, v, evs, ip) +
            (if e.Request? && e.ip == ip then [Grants(l, Lookup(Run(l, v, evs), ip), e)] else [])
    decreases |evs|
  {
    if evs == [] {
      assert [e][1..] == [] && evs + [e] == [e];
    } else {
      AnswersAppend(l, Step(l, v, evs[0]), evs[1..], e, ip);
      assert (evs + [e])[1..] == evs[1..] + [e];
    }
  }

  function EndOf(evs: seq<Event>, start: int): int {
    if evs == [] then start else Ends(evs[|evs| - 1])
  }

  lemma {:induction false} OrderAppend(evs: seq<Event>, e: Event, start: int)
    requires InOrder(evs, start) && EndOf(evs, start) <= Begins(e) <= Ends(e)
    ensures InOrder(evs + [e], start)
    decreases |evs|
  {
    if evs == [] {
      assert [e][1..] == [] && evs + [e] == [e];
    } else {
      OrderAppend(evs[1..], e, Ends(evs[0]));
      assert (evs + [e])[1..] == evs[1..] + [e];
    }
  }

  /** `log` records every request and every look of the cleaner; the map is at all
      times what the trace semantics makes of it. */
  class RateLimiter {
    const limits: Limits
    const clock: Clock
    var visitors: Visitors
    ghost const start: int
    ghost var log: seq<Event>

    ghost predicate Valid()
      reads this, clock
    {
      limits.interval > 0 && visitors == Run(limits, map[], log) && InOrder(log, start)
        && EndOf(log, start) <= clock.now
    }

    constructor (rate: int, interval: int, clock: Clock)
      requires interval > 0
      ensures Valid() && limits == Limits(rate, interval) && this.clock == clock && log == []
    {
      limits, this.clock, visitors, start, log := Limits(rate, interval), clock, map[], clock.now, [];
    }

    ghost method Record(e: Event)
      requires limits.interval > 0 && InOrder(log, start) && EndOf(log, start) <= Begins(e) <= Ends(e) <= clock.now
      requires visitors == Step(limits, Run(limits, map[], log), e)
      modifies this`log
      ensures Valid() && log == old(log) + [e]
    {
      RunAppend(limits, map[], log, e);
      OrderAppend(log, e, start);
      log := log + [e];
    }

    method Allow(ip: string) returns (ok: bool)
      requires Valid()
      modifies this`visitors, this`log, clock
      ensures Valid() && old(clock.now) <= clock.now
      ensures exists e: Event ::
        && e.Request? && e.ip == ip && log == old(log) + [e] && old(clock.now) <= e.checked <= e.stamped == clock.now
        && ok == Grants(limits, Lookup(old(visitors), ip), e) && visitors == Step(limits, old(visitors), e)
    {
      if ip !in visitors {
        var seen := clock.Read();
        visitors := visitors[ip := Bucket(limits.rate - 1, seen)];
        Record(Request(ip, seen, seen));
        assert log[|log| - 1] == Request(ip, seen, seen);
        return true;
      }
      var v := visitors[ip];
      var checked := clock.Read();
      var tokens := v.tokens + TowardZero((checked - v.lastSeen) * limits.rate, limits.interval);
      if tokens > limits.rate { tokens := limits.rate; }
      var seen := clock.Read();
      ok := tokens > 0;
      visitors := visitors[ip := Bucket(if ok then tokens - 1 else tokens, seen)];
      Record(Request(ip, checked, seen));
      assert log[|log| - 1] == Request(ip, checked, seen);
    }

    /** One pass of the cleaner, in whatever order the map is walked. */
    method Cleanup()
      requires Valid()
      modifies this`visitors, this`log, clock
      ensures Valid() && old(clock.now) <= clock.now && old(log) <= log
      ensures forall i :: |old(log)| <= i < |log| ==> log[i].Probe?
      ensures visitors.Keys <= old(visitors).Keys
      ensures forall ip :: ip in visitors ==>
              visitors[ip] == old(visitors)[ip] && !Idle(limits, visitors[ip], old(clock.now))
      ensures forall ip :: ip in old(visitors) && ip !in visitors ==> Idle(limits, old(visitors)[ip], clock.now)
    {
      var todo := visitors.Keys;
      while todo != {}
        invariant Valid() && old(clock.now) <= clock.now && old(log) <= log
        invariant forall i :: |old(log)| <= i < |log| ==> log[i].Probe?
        invariant todo <= visitors.Keys <= old(visitors).Keys
        invariant forall ip :: ip in visitors ==> visitors[ip] == old(visitors)[ip]
        invariant forall ip :: ip in visitors && ip !in todo ==> !Idle(limits, visitors[ip], old(clock.now))
        invariant forall ip :: ip in old(visitors) && ip !in visitors ==> Idle(limits, old(visitors)[ip], clock.now)
        decreases todo
      {
        var ip :| ip in todo;
        todo := todo - {ip};
        var at := clock.Read();
        if Idle(limits, visitors[ip], at) { visitors := visitors - {ip}; }
        Record(Probe(ip, at));
      }
    }
  }
}
