/** The order in which `login` consults and charges the throttles, and the replay
    guard for one-time codes. */
module LoginFlow {
  import opened Clocks
  import opened Decimals
  import opened Options
  import opened SlidingWindow

  const REPLAY_SPAN := 2 * 60 * 1_000_000_000

  // ---- The key of a used code -----------------------------------------------

  function Key(user: int, code: string): string {
    Decimal(user) + ":" + code
  }

  /** Different users or different codes never share a key. */
  lemma KeyInjective(u1: int, c1: string, u2: int, c2: string)
    requires Key(u1, c1) == Key(u2, c2)
    ensures u1 == u2 && c1 == c2
  {
    var k, a, b := Key(u1, c1), Decimal(u1), Decimal(u2);
    assert k[|a|] == ':' && k[|b|] == ':';
    assert k[..|a|] == a && k[..|b|] == b;
    assert forall i :: 0 <= i < |a| ==> k[i] == a[i];
    assert forall i :: 0 <= i < |b| ==> k[i] == b[i];
    assert |a| == |b|;
    DecimalInjective(u1, u2);
    assert k[|a| + 1..] == c1 && k[|b| + 1..] == c2;
  }

  // ---- usedTOTP --------------------------------------------------------------

  predicate UsedLately(uses: seq<int>, now: int) {
    uses != [] && now - uses[|uses| - 1] <= REPLAY_SPAN
  }

  /** Of uses more than the span apart: some lie within the last two minutes (in
      nanoseconds) exactly when the last one does. */
  lemma UsedLatelyIff(uses: seq<int>, now: int)
    requires forall i, j :: 0 <= i < j < |uses| ==> uses[j] - uses[i] > REPLAY_SPAN
    ensures UsedLately(uses, now) <==> exists i :: 0 <= i < |uses| && now - uses[i] <= 120_000_000_000
  {
    if uses != [] {
      var last := |uses| - 1;
      assert forall i :: 0 <= i < |uses| ==> uses[i] <= uses[last];
      if UsedLately(uses, now) { assert now - uses[last] <= 120_000_000_000; }
    }
  }

  /** What the map knows about one key, and that its uses are far apart. */
  ghost predicate Guards(seen: map<string, int>, key: string, uses: seq<int>, now: int) {
    && (forall i, j :: 0 <= i < j < |uses| ==> uses[j] - uses[i] > REPLAY_SPAN)
    && (key in seen ==> uses != [] && seen[key] == uses[|uses| - 1])
    && (UsedLately(uses, now) ==> key in seen)
  }

  ghost predicate GuardsAll(seen: map<string, int>, uses: map<string, seq<int>>, now: int) {
    forall key {:trigger Guards(seen, key, Times(uses, key), now)} :: Guards(seen, key, Times(uses, key), now)
  }

  /** The entries that have not expired. */
  function Kept(seen: map<string, int>, now: int): map<string, int> {
    map k | k in seen && now - seen[k] <= REPLAY_SPAN :: seen[k]
  }

  /** `uses` is, for every key, all times it was accepted. */
  class UsedCodes {
    const clock: Clock
    var seen: map<string, int>
    ghost var uses: map<string, seq<int>>
    ghost var asOf: int  // the clock at the last use

    ghost predicate Valid()
      reads this, clock
    {
      asOf <= clock.now && GuardsAll(seen, uses, asOf)
    }

    constructor (clock: Clock)
      ensures Valid() && this.clock == clock && uses == map[]
    {
      this.clock, seen, uses, asOf := clock, map[], map[], clock.now;
    }

    /** The loop that drops expired entries. */
    method Expire(now: int)
      modifies this`seen
      ensures seen == Kept(old(seen), now)
    {
      var todo := seen.Keys;
      while todo != {}
        invariant todo <= seen.Keys <= old(seen).Keys
        invariant forall k :: k in seen ==> seen[k] == old(seen)[k]
        invariant forall k :: k in old(seen) && k !in todo ==> (k in seen <==> now - old(seen)[k] <= REPLAY_SPAN)
        decreases todo
      {
        var k :| k in todo;
        todo := todo - {k};
        if now - seen[k] > REPLAY_SPAN { seen := seen - {k}; }
      }
    }

    method MarkUsed(user: int, code: string) returns (ok: bool)
      requires Valid()
      modifies this`seen, this`uses, this`asOf, clock
      ensures Valid() && old(clock.now) <= clock.now
      ensures ok <==> !UsedLately(Times(old(uses), Key(user, code)), clock.now)
      ensures ok <==> forall i :: 0 <= i < |Times(old(uses), Key(user, code))| ==>
                        clock.now - Times(old(uses), Key(user, code))[i] > 120_000_000_000
      ensures uses == if ok then Appended(old(uses), Key(user, code), clock.now) else old(uses)
    {
      var now := clock.Read();
      var key := Key(user, code);
      MarkKeepsGuards(seen, uses, key, asOf, now);
      assert Guards(seen, key, Times(uses, key), asOf);
      UsedLatelyIff(Times(uses, key), now);
      asOf := now;
      Expire(now);
      if key in seen { return false; }
      seen := seen[key := now];
      uses := Appended(uses, key, now);
      return true;
    }
  }

  lemma MarkKeepsGuards(seen: map<string, int>, uses: map<string, seq<int>>, key: string, before: int, now: int)
    requires GuardsAll(seen, uses, before) && before <= now
    ensures key in Kept(seen, now) <==> UsedLately(Times(uses, key), now)
    ensures GuardsAll(Kept(seen, now), uses, now)
    ensures key !in Kept(seen, now) ==> GuardsAll(Kept(seen, now)[key := now], Appended(uses, key, now), now)
  {
    forall k
      ensures Guards(Kept(seen, now), k, Times(uses, k), now)
      ensures k in Kept(seen, now) <==> UsedLately(Times(uses, k), now)
      ensures key !in Kept(seen, now) ==>
              Guards(Kept(seen, now)[key := now], k, Times(Appended(uses, key, now), k), now)
    {
      assert Guards(seen, k, Times(uses, k), before);
      if k == key && key !in Kept(seen, now) { UseAppended(seen, key, Times(uses, key), now); }
    }
  }

  lemma UseAppended(seen: map<string, int>, key: string, uses: seq<int>, now: int)
    requires !UsedLately(uses, now)
    requires forall i, j :: 0 <= i < j < |uses| ==> uses[j] - uses[i] > REPLAY_SPAN
    ensures forall i, j :: 0 <= i < j < |uses + [now]| ==> (uses + [now])[j] - (uses + [now])[i] > REPLAY_SPAN
  {
    forall i, j | 0 <= i < j < |uses + [now]| ensures (uses + [now])[j] - (uses + [now])[i] > REPLAY_SPAN {
      if j == |uses| && i < |uses| - 1 { assert uses[|uses| - 1] - uses[i] > REPLAY_SPAN; }
    }
  }

  // ---- login -----------------------------------------------------------------

  datatype User = User(id: int, totpEnabled: bool, hasSecret: bool)

  /** Everything `login` learns from outside the throttles. failKey is the trimmed
      and lower-cased user name. */
  datatype Attempt = Attempt(
    ip: string, bodyOk: bool, failKey: string, lookupError: bool, user: Option<User>, verifyError: bool,
      passwordOk: bool,
    totpCode: string, recoveryCode: string, recoveryError: bool, recoveryOk: bool, totpOk: bool, sessionError: bool)

  datatype Response =
    | AddressThrottled | BadRequest | AccountThrottled | InternalError | InvalidCredentials
    | SecondFactorRequired | InvalidSecondFactor | SessionError | LoggedIn

  /** The failure log of the account after a response: charged for a wrong
      password or second factor, cleared once both are right, else untouched. */
  ghost predicate Charged(r: Response, before: map<string, seq<int>>, after: map<string, seq<int>>, key: string,
                          now: int) {
    match r
    case InvalidCredentials => after == Appended(before, key, now)
    case InvalidSecondFactor => after == Appended(before, key, now)
    case SessionError => after == before - {key}
    case LoggedIn => after == before - {key}
    case _ => after == before
  }

  predicate PasswordRight(a: Attempt) {
    !a.lookupError && a.user.Some? && !a.verifyError && a.passwordOk
  }

  /** The attempt has to name a second factor. */
  predicate AsksFactor(a: Attempt) {
    PasswordRight(a) && a.user.value.totpEnabled
  }

  /** A recovery code goes before a one-time code. */
  predicate FactorRight(a: Attempt, codeFresh: bool)
    requires a.user.Some?
  {
    if a.recoveryCode != "" then a.recoveryOk else a.user.value.hasSecret && a.totpOk && codeFresh
  }

  predicate NamesFactor(a: Attempt) {
    !(a.totpCode == "" && a.recoveryCode == "") && !(a.recoveryCode != "" && a.recoveryError)
  }

  /** Which attempts get which answer once no throttle is in the way. */
  predicate Judged(r: Response, a: Attempt, codeFresh: bool) {
    && !r.AddressThrottled? && !r.BadRequest? && !r.AccountThrottled?
    && (r.InvalidCredentials? <==> !a.lookupError && (a.user.None? || (!a.verifyError && !a.passwordOk)))
    && (r.SecondFactorRequired? <==> AsksFactor(a) && a.totpCode == "" && a.recoveryCode == "")
    && (r.InvalidSecondFactor? <==> AsksFactor(a) && NamesFactor(a) && !FactorRight(a, codeFresh))
    && (r.LoggedIn? || r.SessionError? <==>
       PasswordRight(a) && (AsksFactor(a) ==> NamesFactor(a) && FactorRight(a, codeFresh)))
    && (r.SessionError? ==> a.sessionError) && (r.LoggedIn? ==> !a.sessionError)
  }

  /** Which attempts get which answer, given what the throttles and the replay guard say. */
  predicate Answers(r: Response, a: Attempt, addressFull: bool, accountFull: bool, codeFresh: bool) {
    && (r.AddressThrottled? <==> addressFull)
    && (r.BadRequest? <==> !addressFull && !a.bodyOk)
    && (r.AccountThrottled? <==> !addressFull && a.bodyOk && accountFull)
    && (!addressFull && a.bodyOk && !accountFull ==> Judged(r, a, codeFresh))
  }

  /** The login was let in by a one-time code. */
  predicate ByCode(r: Response, a: Attempt) {
    (r.LoggedIn? || r.SessionError?) && a.user.Some? && a.user.value.totpEnabled && a.recoveryCode == ""
  }

  /** The second factor: a one-time code that is right is used up. */
  method CheckFactor(used: UsedCodes, user: User, a: Attempt) returns (valid: bool)
    requires used.Valid() && a.user == Some(user)
    modifies used`seen, used`uses, used`asOf, used.clock
    ensures used.Valid() && old(used.clock.now) <= used.clock.now
    ensures valid == FactorRight(a, !UsedLately(Times(old(used.uses), Key(user.id, a.totpCode)), used.clock.now))
    ensures used.uses == if valid && a.recoveryCode == ""
            then Appended(old(used.uses), Key(user.id, a.totpCode), used.clock.now) else old(used.uses)
  {
    if a.recoveryCode != "" { return a.recoveryOk; }
    if !user.hasSecret || !a.totpOk { return false; }
    valid := used.MarkUsed(user.id, a.totpCode);
  }

  /** When the clock was read: for the address, for the account, for the one-time code. */
  datatype Readings = Readings(address: int, account: int, code: int)

  method Login(limiter: LoginLimiter, tracker: FailureTracker, used: UsedCodes, a: Attempt)
    returns (r: Response, ghost at: Readings)
    requires limiter.Valid() && tracker.Valid() && used.Valid()
    requires limiter.clock == tracker.clock == used.clock
    modifies limiter`attempts, limiter`accepted, limiter`asOf, tracker`fails, tracker`since, tracker`asOf
    modifies used`seen, used`uses, used`asOf, limiter.clock
    ensures limiter.Valid() && tracker.Valid() && used.Valid()
    ensures old(limiter.clock.now) <= at.address <= at.account <= at.code <= limiter.clock.now
    // the answer to every attempt, by the full histories at the times the clock was read
    ensures Answers(r, a, Full(limiter.w, Times(old(limiter.accepted), a.ip), at.address),
                    Full(tracker.w, Times(old(tracker.since), a.failKey), at.account),
                    FreshAt(old(used.uses), a, at.code))
    // what is written down: every address let through, failures of the account, an accepted code
    ensures limiter.accepted == if r.AddressThrottled? then old(limiter.accepted)
            else Appended(old(limiter.accepted), a.ip, at.address)
    ensures Charged(r, old(tracker.since), tracker.since, a.failKey, tracker.clock.now)
    ensures used.uses == UsesAfter(old(used.uses), r, a, at.code)
  {
    var ok := limiter.Allow(a.ip);
    at := Readings(limiter.clock.now, limiter.clock.now, limiter.clock.now);
    if !ok { return AddressThrottled, at; }
    if !a.bodyOk { return BadRequest, at; }
    var blocked := tracker.Blocked(a.failKey);
    at := at.(account := limiter.clock.now, code := limiter.clock.now);
    if blocked { return AccountThrottled, at; }
    ghost var code;
    r, code := Authenticate(tracker, used, a);
    at := at.(code := code);
  }

  ghost predicate FreshAt(uses: map<string, seq<int>>, a: Attempt, now: int) {
    a.user.Some? ==> !UsedLately(Times(uses, Key(a.user.value.id, a.totpCode)), now)
  }

  ghost function UsesAfter(uses: map<string, seq<int>>, r: Response, a: Attempt, now: int): map<string, seq<int>> {
    if ByCode(r, a) then Appended(uses, Key(a.user.value.id, a.totpCode), now) else uses
  }

  /** The part behind the throttles. */
  method Authenticate(tracker: FailureTracker, used: UsedCodes, a: Attempt) returns (r: Response, ghost code: int)
    requires tracker.Valid() && used.Valid() && tracker.clock == used.clock
    modifies tracker`fails, tracker`since, tracker`asOf, used`seen, used`uses, used`asOf, used.clock
    ensures tracker.Valid() && used.Valid() && old(used.clock.now) <= code <= used.clock.now
    ensures Judged(r, a, FreshAt(old(used.uses), a, code))
    ensures Charged(r, old(tracker.since), tracker.since, a.failKey, tracker.clock.now)
    ensures used.uses == UsesAfter(old(used.uses), r, a, code)
  {
    code := used.clock.now;
    if a.lookupError { return InternalError, code; }
    if a.user.None? {
      tracker.Fail(a.failKey);
      return InvalidCredentials, code;
    }
    if a.verifyError { return InternalError, code; }
    if !a.passwordOk {
      tracker.Fail(a.failKey);
      return InvalidCredentials, code;
    }
    var user := a.user.value;
    if user.totpEnabled {
      if a.totpCode == "" && a.recoveryCode == "" { return SecondFactorRequired, code; }
      if a.recoveryCode != "" && a.recoveryError { return InternalError, code; }
      var valid := CheckFactor(used, user, a);
      code := used.clock.now;
      if !valid {
        tracker.Fail(a.failKey);
        return InvalidSecondFactor, code;
      }
    }
    tracker.Reset(a.failKey);
    if a.sessionError { return SessionError, code; }
    return LoggedIn, code;
  }
}
