/** The pool of terminal sessions and its periodic cleaner. Times are in seconds;
    the activity of the sessions does not change during one pass. */
module PtyPool {
  import opened Options

  const MAX_PTY_SESSIONS: nat := 50
  const PTY_IDLE_TIMEOUT := 30 * 60

  datatype Candidate = Candidate(id: string, lastActive: int)

  /** A session's last activity, or None if there was none yet. */
  type Sessions = map<string, Option<int>>

  /** A session without any activity counts as active right now. */
  function LastActive(o: Option<int>, now: int): int {
    if o.None? then now else o.value
  }

  predicate Idle(o: Option<int>, now: int) {
    now - LastActive(o, now) > PTY_IDLE_TIMEOUT
  }

  function Live(m: Sessions, now: int): Sessions {
    map id | id in m && !Idle(m[id], now) :: m[id]
  }

  ghost predicate SortedByAge(s: seq<Candidate>) {
    forall i, j :: 0 <= i <= j < |s| ==> s[i].lastActive <= s[j].lastActive
  }

  /** s lists every session of m once, with its last activity. */
  ghost predicate Lists(s: seq<Candidate>, m: Sessions, now: int) {
    && (forall i :: 0 <= i < |s| ==> s[i].id in m && s[i].lastActive == LastActive(m[s[i].id], now))
    && DistinctIds(s)
    && (forall id :: id in m ==> Candidate(id, LastActive(m[id], now)) in s)
    && |s| == |m|
  }

  // ---- The exchange sort --------------------------------------------------------

  method Swap(a: array<Candidate>, i: nat, j: nat)
    requires i < j < a.Length
    modifies a
    ensures a[..] == old(a[..])[i := old(a[j])][j := old(a[i])]
    ensures multiset(a[..]) == multiset(old(a[..]))
  {
    a[i], a[j] := a[j], a[i];
  }

  /** Puts the oldest of a[i..] at i. */
  method SelectOldest(a: array<Candidate>, i: nat)
    requires i < a.Length
    requires forall p, q :: 0 <= p < i <= q < a.Length ==> a[p].lastActive <= a[q].lastActive
    modifies a
    ensures multiset(a[..]) == multiset(old(a[..])) && a[..i] == old(a[..i])
    ensures forall q :: i <= q < a.Length ==> a[i].lastActive <= a[q].lastActive
    ensures forall p, q :: 0 <= p < i <= q < a.Length ==> a[p].lastActive <= a[q].lastActive
  {
    for j := i + 1 to a.Length
      invariant multiset(a[..]) == multiset(old(a[..])) && a[..i] == old(a[..i])
      invariant forall q :: i <= q < j ==> a[i].lastActive <= a[q].lastActive
      invariant forall p, q :: 0 <= p < i <= q < a.Length ==> a[p].lastActive <= a[q].lastActive
    {
      if a[j].lastActive < a[i].lastActive { Swap(a, i, j); }
    }
  }

  method SortByAge(a: array<Candidate>)
    modifies a
    ensures SortedByAge(a[..]) && multiset(a[..]) == multiset(old(a[..]))
  {
    var i := 0;
    while i < a.Length - 1
      invariant 0 <= i <= a.Length && (a.Length > 0 ==> i < a.Length)
      invariant multiset(a[..]) == multiset(old(a[..])) && SortedByAge(a[..i])
      invariant forall p, q :: 0 <= p < i <= q < a.Length ==> a[p].lastActive <= a[q].lastActive
    {
      SelectOldest(a, i);
      i := i + 1;
    }
  }

  lemma {:induction false} DistinctCount(s: seq<Candidate>, c: Candidate)
    requires DistinctIds(s)
    ensures multiset(s)[c] <= 1
    decreases |s|
  {
    if s != [] {
      var init, last := s[..|s| - 1], s[|s| - 1];
      assert s == init + [last];
      DistinctCount(init, c);
      if last == c { assert c !in init; }
    }
  }

  lemma RepeatedCount(s: seq<Candidate>, i: nat, j: nat)
    requires i < j < |s| && s[i] == s[j]
    ensures multiset(s)[s[i]] >= 2
  {
    assert s == s[..j] + s[j..];
    assert s[i] in s[..j] && s[j] in s[j..];
  }

  /** A reordering of a complete list is a complete list. */
  lemma ListsReordered(s: seq<Candidate>, t: seq<Candidate>, m: Sessions, now: int)
    requires Lists(s, m, now) && multiset(t) == multiset(s)
    ensures Lists(t, m, now)
  {
    assert |t| == |multiset(t)| == |multiset(s)| == |s|;
    forall c ensures c in t <==> c in s {
      assert c in t <==> c in multiset(t);
      assert c in s <==> c in multiset(s);
    }
    forall i | 0 <= i < |t| ensures t[i].id in m && t[i].lastActive == LastActive(m[t[i].id], now) {
      assert t[i] in t;
    }
    forall i, j | 0 <= i < j < |t| ensures t[i].id != t[j].id {
      if t[i].id == t[j].id {
        assert t[i] == t[j];
        RepeatedCount(t, i, j);
        DistinctCount(s, t[i]);
      }
    }
  }

  // ---- The pass --------------------------------------------------------------------

  /** Every session killed to meet the cap is at least as old as every survivor. */
  ghost predicate OldestEvicted(before: Sessions, after: Sessions, now: int) {
    forall gone, kept :: gone in before && gone !in after && kept in after && kept in before ==>
      LastActive(before[gone], now) <= LastActive(before[kept], now)
  }

  ghost predicate PartOf(after: Sessions, before: Sessions) {
    forall id :: id in after ==> id in before && after[id] == before[id]
  }

  ghost predicate NoRepeats(ids: seq<string>) {
    forall i, j :: 0 <= i < j < |ids| ==> ids[i] != ids[j]
  }

  /** The killed and the surviving sessions partition those before. */
  ghost predicate Partition(before: Sessions, after: Sessions, killed: seq<string>) {
    PartOf(after, before) && NoRepeats(killed) && forall id :: id in killed <==> id in before && id !in after
  }

  function Without(m: Sessions, ids: seq<string>): Sessions {
    if ids == [] then m else Without(m, ids[..|ids| - 1]) - {ids[|ids| - 1]}
  }

  function Ids(list: seq<Candidate>): seq<string> {
    if list == [] then [] else Ids(list[..|list| - 1]) + [list[|list| - 1].id]
  }

  function IdleIds(list: seq<Candidate>, now: int): seq<string> {
    if list == [] then []
    else
      var last := list[|list| - 1];
      if now - last.lastActive > PTY_IDLE_TIMEOUT then IdleIds(list[..|list| - 1], now) + [last.id]
        else IdleIds(list[..|list| - 1], now)
  }

  lemma {:induction false} WithoutAt(m: Sessions, ids: seq<string>, id: string)
    ensures id in Without(m, ids) <==> id in m && id !in ids
    ensures id in Without(m, ids) ==> Without(m, ids)[id] == m[id]
  {
    if ids != [] { WithoutAt(m, ids[..|ids| - 1], id); }
  }

  lemma {:induction false} WithoutSize(m: Sessions, ids: seq<string>)
    requires NoRepeats(ids) && forall i :: 0 <= i < |ids| ==> ids[i] in m
    ensures |Without(m, ids)| == |m| - |ids|
  {
    if ids != [] {
      var init, last := ids[..|ids| - 1], ids[|ids| - 1];
      WithoutSize(m, init);
      WithoutAt(m, init, last);
      var w := Without(m, init);
      assert w.Keys == (w - {last}).Keys + {last};
    }
  }

  lemma WithoutPartitions(m: Sessions, ids: seq<string>)
    requires NoRepeats(ids) && forall i :: 0 <= i < |ids| ==> ids[i] in m
    ensures Partition(m, Without(m, ids), ids)
  {
    forall id ensures id in Without(m, ids) <==> id in m && id !in ids {
      WithoutAt(m, ids, id);
    }
    forall id | id in Without(m, ids) ensures Without(m, ids)[id] == m[id] {
      WithoutAt(m, ids, id);
    }
  }

  lemma {:induction false} IdsAt(list: seq<Candidate>)
    ensures |Ids(list)| == |list| && forall i :: 0 <= i < |list| ==> Ids(list)[i] == list[i].id
  {
    if list != [] { IdsAt(list[..|list| - 1]); }
  }

  ghost predicate DistinctIds(list: seq<Candidate>) {
    forall i, j :: 0 <= i < j < |list| ==> list[i].id != list[j].id
  }

  lemma {:induction false} IdleIdsIn(list: seq<Candidate>, now: int, id: string)
    ensures id in IdleIds(list, now) <==>
            exists i :: 0 <= i < |list| && list[i].id == id && now - list[i].lastActive > PTY_IDLE_TIMEOUT
  {
    if list != [] {
      var init, last := list[..|list| - 1], list[|list| - 1];
      IdleIdsIn(init, now, id);
      assert forall i :: 0 <= i < |init| ==> init[i] == list[i];
    }
  }

  lemma {:induction false} IdleIdsDistinct(list: seq<Candidate>, now: int)
    requires DistinctIds(list)
    ensures NoRepeats(IdleIds(list, now))
  {
    if list != [] {
      var init, last := list[..|list| - 1], list[|list| - 1];
      IdleIdsDistinct(init, now);
      IdleIdsIn(init, now, last.id);
    }
  }

  /** Removing the idle ones of a complete list leaves exactly the live sessions. */
  lemma IdleIdsAreTheIdle(list: seq<Candidate>, m: Sessions, now: int)
    requires Lists(list, m, now)
    ensures Without(m, IdleIds(list, now)) == Live(m, now)
    ensures NoRepeats(IdleIds(list, now)) && forall i :: 0 <= i < |IdleIds(list, now)| ==> IdleIds(list, now)[i] in m
  {
    var ids := IdleIds(list, now);
    IdleIdsDistinct(list, now);
    forall id
      ensures id in ids <==> id in m && Idle(m[id], now)
      ensures id in Without(m, ids) <==> id in Live(m, now)
      ensures id in Without(m, ids) ==> Without(m, ids)[id] == m[id]
    {
      IdleIdsIn(list, now, id);
      WithoutAt(m, ids, id);
      if id in m { assert Candidate(id, LastActive(m[id], now)) in list; }
    }
    forall i | 0 <= i < |ids| ensures ids[i] in m {
      assert ids[i] in ids;
    }
  }

  /** The next candidate of a complete list is still there when its turn comes. */
  lemma StillListed(list: seq<Candidate>, m: Sessions, now: int, i: nat)
    requires Lists(list, m, now) && i < |list|
    ensures list[i].id in Without(m, IdleIds(list[..i], now)) && list[i].id in Without(m, Ids(list[..i]))
  {
    IdleIdsIn(list[..i], now, list[i].id);
    WithoutAt(m, IdleIds(list[..i], now), list[i].id);
    IdsAt(list[..i]);
    WithoutAt(m, Ids(list[..i]), list[i].id);
  }

  /** Who is killed in a pass, in terms of the times themselves: as idle exactly those whose
      last activity is more than half an hour ago; above the cap of 50 nobody who was active
      later than one who stays, one without any activity counting as active right now. */
  ghost predicate KilledFor(before: Sessions, after: Sessions, now: int, idle: seq<string>, evicted: seq<string>) {
    && (forall id :: id in idle <==> id in before && before[id].Some? && now - before[id].value > 1800)
    && (forall gone, kept :: gone in evicted && kept in after ==>
          gone in before && kept in before && StaysRather(before[kept], before[gone], now))
    && |after| == if |before| - |idle| <= 50 then |before| - |idle| else 50
  }

  predicate StaysRather(kept: Option<int>, gone: Option<int>, now: int) {
    match (kept, gone)
    case (Some(k), Some(g)) => g <= k
    case (Some(k), None) => now <= k
    case (None, Some(g)) => g <= now
    case (None, None) => true
  }

  lemma PassKills(before: Sessions, live: Sessions, after: Sessions, now: int, idle: seq<string>, evicted: seq<string>)
    requires live == Live(before, now) && Partition(before, live, idle) && Partition(live, after, evicted)
    requires OldestEvicted(live, after, now)
    requires |after| == if |live| <= MAX_PTY_SESSIONS then |live| else MAX_PTY_SESSIONS
    ensures KilledFor(before, after, now, idle, evicted)
  {
    PartitionCounts(before, live, idle);
    forall gone, kept | gone in evicted && kept in after
      ensures gone in before && kept in before && StaysRather(before[kept], before[gone], now)
    {
      assert gone in live && kept in live;
      assert LastActive(live[gone], now) <= LastActive(live[kept], now);
    }
  }

  lemma PartitionCounts(before: Sessions, after: Sessions, killed: seq<string>)
    requires Partition(before, after, killed)
    ensures |after| == |before| - |killed|
  {
    forall i | 0 <= i < |killed| ensures killed[i] in before {
      assert killed[i] in killed;
    }
    WithoutSize(before, killed);
    forall id ensures id in Without(before, killed) <==> id in after {
      WithoutAt(before, killed, id);
    }
    assert Without(before, killed).Keys == after.Keys;
    assert |Without(before, killed)| == |Without(before, killed).Keys| && |after| == |after.Keys|;
  }

  lemma OneMore(k: seq<string>, ids: seq<string>, id: string)
    ensures k + ids + [id] == k + (ids + [id])
  {
  }

  /** One more turn of the loop that kills the idle. */
  lemma OneMoreIdle(list: seq<Candidate>, m: Sessions, now: int, i: nat)
    requires i < |list|
    ensures var ids, id := IdleIds(list[..i], now), list[i].id;
            var next := if now - list[i].lastActive > PTY_IDLE_TIMEOUT then ids + [id] else ids;
            && IdleIds(list[..i + 1], now) == next
            && Without(m, next) == if now - list[i].lastActive > PTY_IDLE_TIMEOUT then Without(m, ids) - {id}
                                   else Without(m, ids)
  {
    var ids, id := IdleIds(list[..i], now), list[i].id;
    assert list[..i + 1][..i] == list[..i];
    assert (ids + [id])[..|ids + [id]| - 1] == ids;
  }

  class Pool {
    var sessions: Sessions
    var killed: seq<string>

    constructor (sessions: Sessions)
      ensures this.sessions == sessions && killed == []
    {
      this.sessions, killed := sessions, [];
    }

    /** cancel, close and kill the process, and forget the session. */
    method Kill(id: string)
      requires id in sessions
      modifies this
      ensures sessions == old(sessions) - {id} && killed == old(killed) + [id]
    {
      sessions := sessions - {id};
      killed := killed + [id];
    }

    /** Collects the sessions in whatever order the map is walked. */
    method Collect(now: int) returns (list: seq<Candidate>)
      ensures Lists(list, sessions, now)
    {
      list := [];
      var todo := sessions.Keys;
      ghost var m := sessions;
      while todo != {}
        invariant todo <= m.Keys
        invariant Lists(list, map id | id in m && id !in todo :: m[id], now)
        decreases todo
      {
        var id :| id in todo;
        CollectOne(m, list, todo, id, now);
        list := list + [Candidate(id, LastActive(sessions[id], now))];
        todo := todo - {id};
      }
      assert (map id | id in m && id !in todo :: m[id]) == m;
    }

    method KillIdle(list: seq<Candidate>, now: int)
      requires Lists(list, sessions, now)
      modifies this
      ensures sessions == Live(old(sessions), now) && killed == old(killed) + IdleIds(list, now)
    {
      ghost var m, k := sessions, killed;
      ghost var ids: seq<string> := [];
      for i := 0 to |list|
        invariant ids == IdleIds(list[..i], now) && sessions == Without(m, ids) && killed == k + ids
      {
        StillListed(list, m, now, i);
        OneMoreIdle(list, m, now, i);
        if now - list[i].lastActive > PTY_IDLE_TIMEOUT {
          Kill(list[i].id);
          OneMore(k, ids, list[i].id);
          ids := ids + [list[i].id];
        }
      }
      assert list[..|list|] == list;
      IdleIdsAreTheIdle(list, m, now);
    }

    /** Collects the sessions again and sorts them, oldest first. */
    method CollectByAge(now: int) returns (list: seq<Candidate>)
      ensures Lists(list, sessions, now) && SortedByAge(list)
    {
      list := Collect(now);
      var remaining := new Candidate[|list|](i requires 0 <= i < |list| => list[i]);
      assert remaining[..] == list;
      SortByAge(remaining);
      ListsReordered(list, remaining[..], sessions, now);
      list := remaining[..];
    }

    method KillFirst(list: seq<Candidate>, n: nat, ghost now: int)
      requires Lists(list, sessions, now) && n <= |list|
      modifies this
      ensures sessions == Without(old(sessions), Ids(list[..n])) && killed == old(killed) + Ids(list[..n])
    {
      ghost var m := sessions;
      for i := 0 to n
        invariant sessions == Without(m, Ids(list[..i])) && killed == old(killed) + Ids(list[..i])
      {
        StillListed(list, m, now, i);
        assert list[..i + 1][..i] == list[..i];
        Kill(list[i].id);
      }
    }

    method EvictOldest(now: int) returns (ghost evicted: seq<string>)
      requires |sessions| > MAX_PTY_SESSIONS
      modifies this
      ensures |sessions| == MAX_PTY_SESSIONS && OldestEvicted(old(sessions), sessions, now)
      ensures killed == old(killed) + evicted && Partition(old(sessions), sessions, evicted)
    {
      var remaining := CollectByAge(now);
      var excess := |remaining| - MAX_PTY_SESSIONS;
      evicted := Ids(remaining[..excess]);
      FirstEvicted(remaining, sessions, now, excess);
      KillFirst(remaining, excess, now);
    }

    /** One pass: afterwards at most 50 sessions are left and none is idle; killed
        and surviving sessions partition the pool; whoever had to go for the cap is
        no newer than anyone who stays, and no more go than have to. */
    method CleanIdleSessions(now: int) returns (ghost idle: seq<string>, ghost evicted: seq<string>)
      modifies this
      ensures killed == old(killed) + idle + evicted
      ensures Partition(old(sessions), Live(old(sessions), now), idle)
      ensures Partition(Live(old(sessions), now), sessions, evicted)
      ensures OldestEvicted(Live(old(sessions), now), sessions, now)
      ensures |sessions| == if |Live(old(sessions), now)| <= MAX_PTY_SESSIONS then |Live(old(sessions), now)|
              else MAX_PTY_SESSIONS
      ensures KilledFor(old(sessions), sessions, now, idle, evicted)
    {
      var list := Collect(now);
      IdleIdsAreTheIdle(list, sessions, now);
      WithoutPartitions(sessions, IdleIds(list, now));
      idle, evicted := IdleIds(list, now), [];
      KillIdle(list, now);
      NothingEvicted(sessions, now);
      ghost var live := sessions;
      if |sessions| > MAX_PTY_SESSIONS { evicted := EvictOldest(now); }
      PassKills(old(sessions), live, sessions, now, idle, evicted);
    }
  }

  lemma NothingEvicted(m: Sessions, now: int)
    ensures Partition(m, m, []) && OldestEvicted(m, m, now)
  {
  }

  lemma FirstEvicted(s: seq<Candidate>, m: Sessions, now: int, cut: nat)
    requires Lists(s, m, now) && SortedByAge(s) && cut <= |s|
    ensures var left := Without(m, Ids(s[..cut]));
            |left| == |m| - cut && Partition(m, left, Ids(s[..cut])) && OldestEvicted(m, left, now)
  {
    var ids, left := Ids(s[..cut]), Without(m, Ids(s[..cut]));
    IdsAt(s[..cut]);
    WithoutSize(m, ids);
    WithoutPartitions(m, ids);
    forall j | 0 <= j < |s| ensures s[j].id in left <==> cut <= j {
      WithoutAt(m, ids, s[j].id);
      if j < cut { assert ids[j] == s[j].id; }
    }
    AgeSplit(s, m, left, now, cut);
  }

  lemma ListedOne(m: Sessions, list: seq<Candidate>, id: string, o: Option<int>, now: int)
    requires id !in m && Lists(list, m, now)
    ensures Lists(list + [Candidate(id, LastActive(o, now))], m[id := o], now)
  {
    var after, next := m[id := o], list + [Candidate(id, LastActive(o, now))];
    forall x | x in after ensures Candidate(x, LastActive(after[x], now)) in next {
      if x == id { assert next[|list|] == Candidate(id, LastActive(o, now)); }
    }
  }

  lemma CollectOne(m: Sessions, list: seq<Candidate>, todo: set<string>, id: string, now: int)
    requires todo <= m.Keys && id in todo && Lists(list, map x | x in m && x !in todo :: m[x], now)
    ensures Lists(list + [Candidate(id, LastActive(m[id], now))], map x | x in m && x !in todo - {id} :: m[x], now)
  {
    var before := map x | x in m && x !in todo :: m[x];
    ListedOne(before, list, id, m[id], now);
    assert (map x | x in m && x !in todo - {id} :: m[x]) == before[id := m[id]];
  }

  lemma AgeSplit(s: seq<Candidate>, m: Sessions, left: Sessions, now: int, cut: nat)
    requires Lists(s, m, now) && SortedByAge(s) && cut <= |s| && PartOf(left, m)
    requires forall j :: 0 <= j < cut ==> s[j].id !in left
    requires forall j :: cut <= j < |s| ==> s[j].id in left
    ensures OldestEvicted(m, left, now)
  {
    forall gone, kept | gone in m && gone !in left && kept in left && kept in m
      ensures LastActive(m[gone], now) <= LastActive(m[kept], now)
    {
      assert Candidate(gone, LastActive(m[gone], now)) in s && Candidate(kept, LastActive(m[kept], now)) in s;
      var i :| 0 <= i < |s| && s[i] == Candidate(gone, LastActive(m[gone], now));
      var j :| 0 <= j < |s| && s[j] == Candidate(kept, LastActive(m[kept], now));
    }
  }

  /** Over the whole pass: survivors are live, and all others were killed, once. */
  lemma PassPartitions(m: Sessions, after: Sessions, now: int, idle: seq<string>, evicted: seq<string>)
    requires Partition(m, Live(m, now), idle) && Partition(Live(m, now), after, evicted)
    ensures Partition(m, after, idle + evicted)
    ensures forall id :: id in after ==> id in m && after[id] == m[id] && !Idle(m[id], now)
  {
    PartitionTwice(m, Live(m, now), after, idle, evicted);
  }

  lemma PartitionTwice(a: Sessions, b: Sessions, c: Sessions, k1: seq<string>, k2: seq<string>)
    requires Partition(a, b, k1) && Partition(b, c, k2)
    ensures Partition(a, c, k1 + k2)
  {
    forall i, j | 0 <= i < j < |k1 + k2| ensures (k1 + k2)[i] != (k1 + k2)[j] {
      if i < |k1| && j >= |k1| {
        assert k1[i] in k1 && k2[j - |k1|] in k2;
      }
    }
  }
}
