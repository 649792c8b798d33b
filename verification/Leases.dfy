/** Leases with a time to live, and what each lock operation does to the table of leases. */
module Leases {
  import opened Options
  import opened Tenures

  datatype Lease<+K> = Lease(key: K, holder: string, acquiredAt: real, expiresAt: real, ttl: real, token: string)

  type Table<K(==)> = map<K, Lease<K>>

  datatype Reason =
    | WasAcquired | IsHeld | WasRenewed | WasReleased | WasForceReleased
    | NotFound | InvalidToken | ExpiredBeforeRenew

  datatype LockResult<+K> = LockResult(
    success: bool, timestamp: real, reason: Reason, lease: Option<Lease<K>>, conflictHolder: Option<string>)

  function Min(a: real, b: real): (m: real)
    ensures m <= a && m <= b && (m == a || m == b)
  {
    if a < b then a else b
  }

  predicate Expired<K>(lease: Lease<K>, now: real)
  {
    now > lease.expiresAt
  }

  function Refused<K>(now: real, reason: Reason, conflictHolder: Option<string>): LockResult<K>
  {
    LockResult(false, now, reason, None, conflictHolder)
  }

  /** The leases that have not expired: all that `sweep_expired` keeps and `list_active` lists. */
  function Live<K(==)>(m: Table<K>, now: real): Table<K>
  {
    map key | key in m && !Expired(m[key], now) :: m[key]
  }

  predicate Held<K(==)>(m: Table<K>, key: K, now: real)
  {
    key in m && !Expired(m[key], now)
  }

  function AfterAcquire<K(==)>(
    m: Table<K>, key: K, holder: string, ttl: real, token: string, now: real): (Table<K>, LockResult<K>)
  {
    if Held(m, key, now) then (m, Refused(now, IsHeld, Some(m[key].holder)))
    else
      var lease := Lease(key, holder, now, now + ttl, ttl, token);
      (m[key := lease], LockResult(true, now, WasAcquired, Some(lease), None))
  }

  function AfterRenew<K(==)>(m: Table<K>, key: K, token: string, ttl: real, now: real): (Table<K>, LockResult<K>)
  {
    if key !in m then (m, Refused(now, NotFound, None))
    else if m[key].token != token then (m, Refused(now, InvalidToken, Some(m[key].holder)))
    else if Expired(m[key], now) then (m - {key}, Refused(now, ExpiredBeforeRenew, None))
    else
      var renewed := m[key].(expiresAt := now + ttl, ttl := ttl);
      (m[key := renewed], LockResult(true, now, WasRenewed, Some(renewed), None))
  }

  function AfterRelease<K(==)>(m: Table<K>, key: K, token: string, now: real): (Table<K>, LockResult<K>)
  {
    if key !in m then (m, Refused(now, NotFound, None))
    else if m[key].token != token then (m, Refused(now, InvalidToken, Some(m[key].holder)))
    else (m - {key}, LockResult(true, now, WasReleased, None, None))
  }

  function AfterForceRelease<K(==)>(m: Table<K>, key: K, now: real): (Table<K>, LockResult<K>)
  {
    if key !in m then (m, Refused(now, NotFound, None))
    else (m - {key}, LockResult(true, now, WasForceReleased, None, None))
  }

  /** With a cap; `None` is the error that the cap raises. Even then expired leases have been removed. */
  function AfterCappedAcquire<K(==)>(
    m: Table<K>, cap: nat, key: K, holder: string, ttl: real, token: string, now: real)
    : (Table<K>, Option<LockResult<K>>)
  {
    if Held(m, key, now) then (m, Some(Refused(now, IsHeld, Some(m[key].holder))))
    else
      var freed := m - {key};
      var room := if |freed| >= cap then Live(freed, now) else freed;
      if |room| >= cap then (room, None) else
        var lease := Lease(key, holder, now, now + ttl, ttl, token);
        (room[key := lease], Some(LockResult(true, now, WasAcquired, Some(lease), None)))
  }

  /** The acquire of a manager that has a cap, or has none. */
  function AfterAcquireWithin<K(==)>(
    m: Table<K>, limit: Option<nat>, key: K, holder: string, ttl: real, token: string, now: real)
    : (Table<K>, Option<LockResult<K>>)
  {
    match limit
    case None =>
      var (after, result) := AfterAcquire(m, key, holder, ttl, token, now);
      (after, Some(result))
    case Some(cap) => AfterCappedAcquire(m, cap, key, holder, ttl, token, now)
  }

  predicate Fits<K>(m: Table<K>, limit: Option<nat>)
  {
    limit.Some? ==> limit.value > 0 && |m| <= limit.value
  }

  // ---- sweeps ----------------------------------------------------------------------------------------

  datatype Op<K> =
    | Acquire(key: K, holder: string, ttl: real, token: string)
    | Renew(key: K, token: string, ttl: real)
    | Release(key: K, token: string)
    | ForceRelease(key: K)
    | AskHeld(key: K)
    | AskActive
    | Sweep

  datatype Timed<K> = Timed(op: Op<K>, now: real)

  function Exec<K(==)>(m: Table<K>, limit: Option<nat>, t: Timed<K>): Table<K>
  {
    match t.op
    case Acquire(key, holder, ttl, token) => AfterAcquireWithin(m, limit, key, holder, ttl, token, t.now).0
    case Renew(key, token, ttl) => AfterRenew(m, key, token, ttl, t.now).0
    case Release(key, token) => AfterRelease(m, key, token, t.now).0
    case ForceRelease(key) => AfterForceRelease(m, key, t.now).0
    case AskHeld(_) => m
    case AskActive => m
    case Sweep => Live(m, t.now)
  }

  /** What the caller learns; for `renew`, whether and until when. Releases and sweeps are not compared. */
  datatype Answer<K> =
    | Acquired(result: Option<LockResult<K>>)
    | Renewed(lease: Option<Lease<K>>)
    | IsHeldNow(held: bool)
    | ActiveNow(active: Table<K>)

  function Answers<K(==)>(m: Table<K>, limit: Option<nat>, t: Timed<K>): seq<Answer<K>>
  {
    match t.op
    case Acquire(key, holder, ttl, token) =>
      [Acquired(AfterAcquireWithin(m, limit, key, holder, ttl, token, t.now).1)]
    case Renew(key, token, ttl) => [Renewed(AfterRenew(m, key, token, ttl, t.now).1.lease)]
    case Release(_, _) => []
    case ForceRelease(_) => []
    case AskHeld(key) => [IsHeldNow(Held(m, key, t.now))]
    case AskActive => [ActiveNow(Live(m, t.now))]
    case Sweep => []
  }

  function AllAnswers<K(==)>(m: Table<K>, limit: Option<nat>, ops: seq<Timed<K>>): seq<Answer<K>>
    decreases |ops|
  {
    if ops == [] then [] else Answers(m, limit, ops[0]) + AllAnswers(Exec(m, limit, ops[0]), limit, ops[1..])
  }

  function WithoutSweeps<K>(ops: seq<Timed<K>>): (rest: seq<Timed<K>>)
    ensures forall i :: 0 <= i < |rest| ==> !rest[i].op.Sweep?
  {
    if ops == [] then [] else (if ops[0].op.Sweep? then [] else [ops[0]]) + WithoutSweeps(ops[1..])
  }

  ghost predicate TimesFrom<K>(now: real, ops: seq<Timed<K>>)
    decreases |ops|
  {
    ops == [] || (now <= ops[0].now && TimesFrom(ops[0].now, ops[1..]))
  }

  lemma LiveLater<K>(m: Table<K>, n: Table<K>, now: real, later: real)
    requires Live(m, now) == Live(n, now) && now <= later
    ensures Live(m, later) == Live(n, later)
  {
    forall key
      ensures key in Live(m, later) <==> key in Live(n, later)
      ensures key in Live(m, later) ==> Live(m, later)[key] == Live(n, later)[key]
    {
      assert key in Live(m, later) ==> key in Live(m, now) && Live(m, now)[key] == m[key];
      assert key in Live(n, later) ==> key in Live(n, now) && Live(n, now)[key] == n[key];
      assert key in Live(m, now) ==> key in m && key in n && m[key] == Live(n, now)[key] == n[key];
      assert key in Live(n, now) ==> key in m && key in n && n[key] == Live(m, now)[key] == m[key];
    }
  }

  lemma LiveAgree<K>(m: Table<K>, n: Table<K>, now: real, key: K)
    requires Live(m, now) == Live(n, now)
    ensures Held(m, key, now) <==> Held(n, key, now)
    ensures Held(m, key, now) ==> m[key] == n[key]
  {
    assert key in Live(m, now) <==> key in Live(n, now);
    assert key in Live(m, now) ==> Live(m, now)[key] == Live(n, now)[key];
  }

  lemma LiveOfUpdate<K>(m: Table<K>, key: K, lease: Lease<K>, now: real)
    ensures Live(m[key := lease], now) ==
            if Expired(lease, now) then Live(m, now) - {key} else Live(m, now)[key := lease]
  {
  }

  lemma LiveOfDrop<K>(m: Table<K>, key: K, now: real)
    ensures Live(m - {key}, now) == Live(m, now) - {key}
  {
  }

  lemma LiveOfLive<K>(m: Table<K>, now: real)
    ensures Live(Live(m, now), now) == Live(m, now)
  {
  }

  /** The unexpired leases after an operation on one lock, of the manager without a cap. */
  lemma ExecChangesOne<K>(m: Table<K>, t: Timed<K>)
    requires !t.op.Sweep? && !t.op.AskActive?
    ensures var live, key := Live(m, t.now), t.op.key;
            Live(Exec(m, None, t), t.now) ==
            match t.op
            case Acquire(_, holder, ttl, token) =>
              if Held(m, key, t.now) || ttl < 0.0 then live
              else live[key := Lease(key, holder, t.now, t.now + ttl, ttl, token)]
            case Renew(_, token, ttl) =>
              if !Held(m, key, t.now) || m[key].token != token then live
              else if ttl < 0.0 then live - {key}
              else live[key := m[key].(expiresAt := t.now + ttl, ttl := ttl)]
            case Release(_, token) => if Held(m, key, t.now) && m[key].token == token then live - {key} else live
            case ForceRelease(_) => live - {key}
            case AskHeld(_) => live
  {
    var live, key := Live(m, t.now), t.op.key;
    LiveOfDrop(m, key, t.now);
    if t.op.Acquire? {
      LiveOfUpdate(m, key, Lease(key, t.op.holder, t.now, t.now + t.op.ttl, t.op.ttl, t.op.token), t.now);
    } else if t.op.Renew? && key in m {
      LiveOfUpdate(m, key, m[key].(expiresAt := t.now + t.op.ttl, ttl := t.op.ttl), t.now);
    }
  }

  lemma UncappedCannotTellApart<K>(m: Table<K>, n: Table<K>, t: Timed<K>)
    requires Live(m, t.now) == Live(n, t.now)
    ensures Answers(m, None, t) == Answers(n, None, t)
    ensures Live(Exec(m, None, t), t.now) == Live(Exec(n, None, t), t.now)
  {
    if t.op.Sweep? || t.op.AskActive? {
      LiveOfLive(m, t.now);
      LiveOfLive(n, t.now);
    } else {
      var key := t.op.key;
      LiveAgree(m, n, t.now, key);
      LiveOfDrop(m, key, t.now);
      LiveOfDrop(n, key, t.now);
      ExecChangesOne(m, t);
      ExecChangesOne(n, t);
    }
  }

  /** Within the cap, the capped acquire answers alike on tables with the same unexpired leases. */
  lemma CappedCannotTellApart<K>(
    m: Table<K>, n: Table<K>, cap: nat, key: K, holder: string, ttl: real, token: string, now: real)
    requires Live(m, now) == Live(n, now) && Fits(m, Some(cap)) && Fits(n, Some(cap))
    ensures var (after, result) := AfterCappedAcquire(m, cap, key, holder, ttl, token, now);
            var (other, otherResult) := AfterCappedAcquire(n, cap, key, holder, ttl, token, now);
            result == otherResult && Live(after, now) == Live(other, now)
  {
    CapIsKept(m, cap, key, holder, ttl, token, now);
    CapIsKept(n, cap, key, holder, ttl, token, now);
    CappedAcquireIsAcquire(m, cap, key, holder, ttl, token, now);
    CappedAcquireIsAcquire(n, cap, key, holder, ttl, token, now);
    var t := Timed(Acquire(key, holder, ttl, token), now);
    UncappedCannotTellApart(m, n, t);
    assert Answers(m, None, t)[0] == Answers(n, None, t)[0];
  }

  /** Tables that agree on the unexpired leases give the same answers and go on agreeing. */
  lemma OpCannotTellApart<K>(m: Table<K>, n: Table<K>, limit: Option<nat>, t: Timed<K>)
    requires Live(m, t.now) == Live(n, t.now) && Fits(m, limit) && Fits(n, limit)
    ensures Answers(m, limit, t) == Answers(n, limit, t)
    ensures Live(Exec(m, limit, t), t.now) == Live(Exec(n, limit, t), t.now)
  {
    if limit.Some? && t.op.Acquire? {
      CappedCannotTellApart(m, n, limit.value, t.op.key, t.op.holder, t.op.ttl, t.op.token, t.now);
    } else {
      UncappedCannotTellApart(m, n, t);
    }
  }

  /** Every operation of the capped manager keeps the number of leases within the cap. */
  lemma ExecFits<K>(m: Table<K>, limit: Option<nat>, t: Timed<K>)
    requires Fits(m, limit)
    ensures Fits(Exec(m, limit, t), limit)
  {
    if limit.Some? && t.op.Acquire? {
      CapIsKept(m, limit.value, t.op.key, t.op.holder, t.op.ttl, t.op.token, t.now);
    } else if limit.Some? {
      SubtableIsSmaller(Exec(m, limit, t), m);
    }
  }

  lemma {:induction false} RunsCannotTellApart<K>(
    m: Table<K>, n: Table<K>, limit: Option<nat>, now: real, ops: seq<Timed<K>>)
    requires Live(m, now) == Live(n, now) && Fits(m, limit) && Fits(n, limit) && TimesFrom(now, ops)
    ensures AllAnswers(m, limit, ops) == AllAnswers(n, limit, WithoutSweeps(ops))
    decreases |ops|
  {
    if ops != [] {
      var t := ops[0];
      LiveLater(m, n, now, t.now);
      OpCannotTellApart(m, n, limit, t);
      ExecFits(m, limit, t);
      if t.op.Sweep? {
        LiveOfLive(m, t.now);
        assert WithoutSweeps(ops) == WithoutSweeps(ops[1..]);
        assert AllAnswers(m, limit, ops) == AllAnswers(Exec(m, limit, t), limit, ops[1..]);
        RunsCannotTellApart(Exec(m, limit, t), n, limit, t.now, ops[1..]);
      } else {
        ExecFits(n, limit, t);
        RunsCannotTellApart(Exec(m, limit, t), Exec(n, limit, t), limit, t.now, ops[1..]);
        assert WithoutSweeps(ops)[1..] == WithoutSweeps(ops[1..]);
      }
    }
  }

  /**
   * Wherever sweeps are inserted, every acquire, renew, is_held and list_active of either manager answers as it
   * would without them. That includes the error which the cap raises.
   */
  lemma SweepsAreInvisible<K>(m: Table<K>, limit: Option<nat>, now: real, ops: seq<Timed<K>>)
    requires Fits(m, limit) && TimesFrom(now, ops)
    ensures AllAnswers(m, limit, ops) == AllAnswers(m, limit, WithoutSweeps(ops))
  {
    RunsCannotTellApart(m, m, limit, now, ops);
  }

  function ExecAll<K(==)>(m: Table<K>, limit: Option<nat>, ops: seq<Timed<K>>): Table<K>
    decreases |ops|
  {
    if ops == [] then m else ExecAll(Exec(m, limit, ops[0]), limit, ops[1..])
  }

  lemma {:induction false} RunsLeaveSameLive<K>(
    m: Table<K>, n: Table<K>, limit: Option<nat>, now: real, ops: seq<Timed<K>>, later: real)
    requires Live(m, now) == Live(n, now) && Fits(m, limit) && Fits(n, limit) && TimesFrom(now, ops)
    requires now <= later && forall t :: t in ops ==> t.now <= later
    ensures Live(ExecAll(m, limit, ops), later) == Live(ExecAll(n, limit, WithoutSweeps(ops)), later)
    ensures Fits(ExecAll(m, limit, ops), limit) && Fits(ExecAll(n, limit, WithoutSweeps(ops)), limit)
    decreases |ops|
  {
    if ops == [] {
      LiveLater(m, n, now, later);
    } else {
      var t := ops[0];
      LiveLater(m, n, now, t.now);
      OpCannotTellApart(m, n, limit, t);
      ExecFits(m, limit, t);
      if t.op.Sweep? {
        LiveOfLive(m, t.now);
        assert WithoutSweeps(ops) == WithoutSweeps(ops[1..]);
        RunsLeaveSameLive(Exec(m, limit, t), n, limit, t.now, ops[1..], later);
      } else {
        ExecFits(n, limit, t);
        RunsLeaveSameLive(Exec(m, limit, t), Exec(n, limit, t), limit, t.now, ops[1..], later);
        assert WithoutSweeps(ops)[1..] == WithoutSweeps(ops[1..]);
      }
    }
  }

  lemma {:induction false} ExecAllOfLonger<K>(m: Table<K>, limit: Option<nat>, ops: seq<Timed<K>>, t: Timed<K>)
    ensures ExecAll(m, limit, ops + [t]) == Exec(ExecAll(m, limit, ops), limit, t)
    ensures AllAnswers(m, limit, ops + [t]) == AllAnswers(m, limit, ops) + Answers(ExecAll(m, limit, ops), limit, t)
    decreases |ops|
  {
    var longer := ops + [t];
    if ops == [] {
      assert longer[0] == t && longer[1..] == [];
      assert AllAnswers(Exec(m, limit, t), limit, longer[1..]) == [];
      assert ExecAll(Exec(m, limit, t), limit, longer[1..]) == Exec(m, limit, t);
    } else {
      assert longer[0] == ops[0] && longer[1..] == ops[1..] + [t];
      ExecAllOfLonger(Exec(m, limit, ops[0]), limit, ops[1..], t);
    }
  }

  /** After any run the caller's next acquire, renewal, question or listing is answered as without the run's sweeps. */
  lemma SweepsLeaveNoTrace<K>(
    m: Table<K>, limit: Option<nat>, now: real, ops: seq<Timed<K>>, later: real,
    key: K, holder: string, ttl: real, token: string)
    requires Fits(m, limit) && TimesFrom(now, ops) && now <= later && forall t :: t in ops ==> t.now <= later
    ensures var swept, unswept := ExecAll(m, limit, ops), ExecAll(m, limit, WithoutSweeps(ops));
            && AfterAcquireWithin(swept, limit, key, holder, ttl, token, later).1 ==
               AfterAcquireWithin(unswept, limit, key, holder, ttl, token, later).1
            && AfterRenew(swept, key, token, ttl, later).1.lease == AfterRenew(unswept, key, token, ttl, later).1.lease
            && (Held(swept, key, later) <==> Held(unswept, key, later))
            && Live(swept, later) == Live(unswept, later)
  {
    RunsLeaveSameLive(m, m, limit, now, ops, later);
    var swept, unswept := ExecAll(m, limit, ops), ExecAll(m, limit, WithoutSweeps(ops));
    OpCannotTellApart(swept, unswept, limit, Timed(Acquire(key, holder, ttl, token), later));
    OpCannotTellApart(swept, unswept, limit, Timed(Renew(key, token, ttl), later));
    LiveAgree(swept, unswept, later, key);
    AnswersAreTheirs(swept, unswept, limit, key, holder, ttl, token, later);
  }

  lemma AnswersAreTheirs<K>(
    m: Table<K>, n: Table<K>, limit: Option<nat>, key: K, holder: string, ttl: real, token: string, now: real)
    requires var t := Timed(Acquire(key, holder, ttl, token), now); Answers(m, limit, t) == Answers(n, limit, t)
    requires var t := Timed(Renew(key, token, ttl), now); Answers(m, limit, t) == Answers(n, limit, t)
    ensures AfterAcquireWithin(m, limit, key, holder, ttl, token, now).1 ==
            AfterAcquireWithin(n, limit, key, holder, ttl, token, now).1
    ensures AfterRenew(m, key, token, ttl, now).1.lease == AfterRenew(n, key, token, ttl, now).1.lease
  {
    var t, u := Timed(Acquire(key, holder, ttl, token), now), Timed(Renew(key, token, ttl), now);
    assert Answers(m, limit, t)[0] == Answers(n, limit, t)[0];
    assert Answers(m, limit, u)[0] == Answers(n, limit, u)[0];
  }

  /** Not so for release: after a sweep it fails exactly where it would have returned an expired lease. */
  lemma ReleaseCanTellSweep<K>(m: Table<K>, key: K, token: string, now: real)
    ensures AfterRelease(m, key, token, now).1.success != AfterRelease(Live(m, now), key, token, now).1.success <==>
            key in m && m[key].token == token && Expired(m[key], now)
  {
  }

  // ---- the cap -----------------------------------------------------------------------------------------

  lemma SubtableIsSmaller<K>(a: Table<K>, b: Table<K>)
    requires a.Keys <= b.Keys
    ensures |a| <= |b|
  {
    assert b.Keys == a.Keys + (b.Keys - a.Keys);
    assert |b.Keys| == |a.Keys| + |b.Keys - a.Keys|;
    assert |a| == |a.Keys| && |b| == |b.Keys|;
  }

  lemma UpdateGrowsByOne<K>(m: Table<K>, key: K, lease: Lease<K>)
    ensures |m[key := lease]| <= |m| + 1
  {
    assert m[key := lease].Keys == m.Keys + {key};
    assert |m[key := lease]| == |m[key := lease].Keys| && |m| == |m.Keys|;
  }

  /** The cap is never exceeded, and it refuses exactly when that many other leases are all unexpired. */
  lemma CapIsKept<K>(m: Table<K>, cap: nat, key: K, holder: string, ttl: real, token: string, now: real)
    requires |m| <= cap && cap > 0
    ensures var (after, result) := AfterCappedAcquire(m, cap, key, holder, ttl, token, now);
            && |after| <= cap
            && (result.None? <==> key !in Live(m, now) && |Live(m, now)| == cap)
  {
    SubtableIsSmaller(Live(m, now), m);
    if !Held(m, key, now) {
      SizesWithout(m, key, now);
      var room := if |m - {key}| >= cap then Live(m, now) else m - {key};
      UpdateGrowsByOne(room, key, Lease(key, holder, now, now + ttl, ttl, token));
    }
  }

  lemma SizesWithout<K>(m: Table<K>, key: K, now: real)
    requires !Held(m, key, now)
    ensures Live(m - {key}, now) == Live(m, now) && |Live(m, now)| <= |m - {key}| <= |m|
  {
    LiveOfPart(m, key, now);
    SubtableIsSmaller(Live(m, now), m - {key});
    SubtableIsSmaller(m - {key}, m);
  }

  lemma LiveOfPart<K>(m: Table<K>, key: K, now: real)
    requires !Held(m, key, now)
    ensures Live(m - {key}, now) == Live(m, now) && Live(Live(m - {key}, now), now) == Live(m, now)
  {
  }

  /** When it does not refuse, the capped acquire cannot be told from the plain one. */
  lemma CappedAcquireIsAcquire<K>(m: Table<K>, cap: nat, key: K, holder: string, ttl: real, token: string, now: real)
    ensures var (after, result) := AfterCappedAcquire(m, cap, key, holder, ttl, token, now);
            var (plain, plainResult) := AfterAcquire(m, key, holder, ttl, token, now);
            && (result.Some? ==> result.value == plainResult && Live(after, now) == Live(plain, now))
            && (result.None? ==> Live(after, now) == Live(m, now))
  {
    if !Held(m, key, now) {
      var freed := m - {key};
      var lease := Lease(key, holder, now, now + ttl, ttl, token);
      LiveOfPart(m, key, now);
      LiveOfUpdate(m, key, lease, now);
      LiveOfUpdate(freed, key, lease, now);
      LiveOfUpdate(Live(freed, now), key, lease, now);
    }
  }

  lemma UpdateAfterDrop<K>(m: Table<K>, key: K, lease: Lease<K>)
    ensures (m - {key})[key := lease] == m[key := lease]
  {
  }

  lemma DropOne<K>(m: Table<K>, key: K)
    requires key in m
    ensures |m - {key}| == |m| - 1
  {
    assert (m - {key}).Keys == m.Keys - {key};
    assert |m - {key}| == |(m - {key}).Keys| && |m| == |m.Keys|;
  }

  lemma WithoutExpiredIsLive<K>(m: Table<K>, expired: set<K>, now: real)
    requires expired == set key | key in m && Expired(m[key], now)
    ensures m - expired == Live(m, now)
  {
  }

  // ---- tenures -------------------------------------------------------------------------------------------

  ghost predicate EndedBefore<K>(t: Tenure<K, real>, now: real)
  {
    t.end < now || (t.released && t.end <= now)
  }

  /** The tenures of one lock do not overlap: each had expired, or was released, when the next began. */
  ghost predicate NoOverlap<K>(ledger: seq<Tenure<K, real>>)
  {
    forall i, j :: 0 <= i < j < |ledger| && ledger[i].key == ledger[j].key ==> EndedBefore(ledger[i], ledger[j].start)
  }

  ghost predicate FreshToken<K>(ledger: seq<Tenure<K, real>>, token: string)
  {
    forall i :: 0 <= i < |ledger| ==> ledger[i].holder != token
  }

  ghost predicate DistinctTokens<K>(ledger: seq<Tenure<K, real>>)
  {
    forall i, j :: 0 <= i < j < |ledger| ==> ledger[i].holder != ledger[j].holder
  }

  ghost predicate IsOpen<K>(lease: Lease<K>, key: K, ledger: seq<Tenure<K, real>>, clock: real)
  {
    var i := LastTenure(ledger, key);
    i >= 0 && ledger[i] == Tenure(key, lease.token, lease.acquiredAt, lease.expiresAt, false)
      && lease.acquiredAt <= clock
  }

  ghost predicate AllOver<K>(ledger: seq<Tenure<K, real>>, key: K, clock: real)
  {
    forall i :: 0 <= i < |ledger| && ledger[i].key == key ==> EndedBefore(ledger[i], clock)
  }

  /** Each lease in the table is the latest tenure of its lock; the other locks' tenures are over. */
  ghost predicate Tracks<K(!new)>(m: Table<K>, ledger: seq<Tenure<K, real>>, clock: real)
  {
    && NoOverlap(ledger) && DistinctTokens(ledger)
    && (forall key :: OpenAt(m, key, ledger, clock))
    && (forall i :: OverAt(m, ledger, i, clock))
  }

  ghost predicate OpenAt<K>(m: Table<K>, key: K, ledger: seq<Tenure<K, real>>, clock: real)
  {
    key in m ==> IsOpen(m[key], key, ledger, clock)
  }

  ghost predicate OverAt<K>(m: Table<K>, ledger: seq<Tenure<K, real>>, i: int, clock: real)
  {
    0 <= i < |ledger| && ledger[i].key !in m ==> EndedBefore(ledger[i], clock)
  }

  lemma TracksLater<K(!new)>(m: Table<K>, ledger: seq<Tenure<K, real>>, clock: real, now: real)
    requires Tracks(m, ledger, clock) && clock <= now
    ensures Tracks(m, ledger, now)
  {
    forall key
      ensures OpenAt(m, key, ledger, now)
    {
      assert OpenAt(m, key, ledger, clock);
    }
    forall i
      ensures OverAt(m, ledger, i, now)
    {
      assert OverAt(m, ledger, i, clock);
    }
  }

  lemma OpenIsOver<K(!new)>(m: Table<K>, ledger: seq<Tenure<K, real>>, clock: real, key: K, now: real)
    requires Tracks(m, ledger, clock) && clock <= now && !Held(m, key, now)
    ensures AllOver(ledger, key, now)
  {
    assert OpenAt(m, key, ledger, clock);
    var last := LastTenure(ledger, key);
    forall i | 0 <= i < |ledger| && ledger[i].key == key
      ensures EndedBefore(ledger[i], now)
    {
      assert OverAt(m, ledger, i, clock);
      assert i <= last;
    }
  }

  lemma DropKeepsTracks<K(!new)>(m: Table<K>, ledger: seq<Tenure<K, real>>, clock: real, n: Table<K>, now: real)
    requires Tracks(m, ledger, clock) && clock <= now
    requires Live(m, now).Keys <= n.Keys <= m.Keys && forall key :: key in n ==> n[key] == m[key]
    ensures Tracks(n, ledger, now)
  {
    forall key
      ensures OpenAt(n, key, ledger, now)
    {
      assert OpenAt(m, key, ledger, clock);
    }
    forall i
      ensures OverAt(n, ledger, i, now)
    {
      if 0 <= i < |ledger| && ledger[i].key !in n {
        OpenIsOver(m, ledger, clock, ledger[i].key, now);
      }
    }
  }

  lemma LastOfLonger<K>(ledger: seq<Tenure<K, real>>, t: Tenure<K, real>, key: K)
    ensures LastTenure(ledger + [t], key) == if t.key == key then |ledger| else LastTenure(ledger, key)
  {
    assert (ledger + [t])[..|ledger|] == ledger;
  }

  lemma GrantKeepsTracks<K(!new)>(m: Table<K>, ledger: seq<Tenure<K, real>>, key: K, lease: Lease<K>, now: real)
    requires Tracks(m, ledger, now) && !Held(m, key, now) && FreshToken(ledger, lease.token)
    requires lease.acquiredAt == now
    ensures Tracks(m[key := lease], ledger + [Tenure(key, lease.token, now, lease.expiresAt, false)], now)
  {
    var t := Tenure(key, lease.token, now, lease.expiresAt, false);
    var n, longer := m[key := lease], ledger + [t];
    OpenIsOver(m, ledger, now, key, now);
    forall other
      ensures OpenAt(n, other, longer, now)
    {
      LastOfLonger(ledger, t, other);
      assert OpenAt(m, other, ledger, now);
    }
    forall i
      ensures OverAt(n, longer, i, now)
    {
      assert OverAt(m, ledger, i, now);
    }
  }

  lemma SameKeysSameLast<K>(a: seq<Tenure<K, real>>, b: seq<Tenure<K, real>>, key: K)
    requires |a| == |b| && forall i :: 0 <= i < |a| ==> a[i].key == b[i].key
    ensures LastTenure(a, key) == LastTenure(b, key)
  {
  }

  /** Moving the end of the latest tenure of a lock in the table disturbs no other one. */
  lemma ClosedKeepsOthers<K(!new)>(
    m: Table<K>, ledger: seq<Tenure<K, real>>, key: K, now: real, end: real, released: bool)
    requires Tracks(m, ledger, now) && key in m
    ensures var closed := Closed(ledger, key, end, released);
            && NoOverlap(closed) && DistinctTokens(closed)
            && (forall other :: other != key ==> OpenAt(m, other, closed, now))
  {
    var closed := Closed(ledger, key, end, released);
    var last := LastTenure(ledger, key);
    assert OpenAt(m, key, ledger, now);
    forall i, j | 0 <= i < j < |closed| && closed[i].key == closed[j].key
      ensures EndedBefore(closed[i], closed[j].start)
    {
      assert EndedBefore(ledger[i], ledger[j].start);
      assert i != last;
    }
    forall other | other != key
      ensures OpenAt(m, other, closed, now)
    {
      SameKeysSameLast(ledger, closed, other);
      assert OpenAt(m, other, ledger, now);
    }
  }

  lemma RenewKeepsTracks<K(!new)>(
    m: Table<K>, ledger: seq<Tenure<K, real>>, key: K, expiresAt: real, ttl: real, now: real)
    requires Tracks(m, ledger, now) && key in m
    ensures Tracks(m[key := m[key].(expiresAt := expiresAt, ttl := ttl)], Closed(ledger, key, expiresAt, false), now)
  {
    var closed := Closed(ledger, key, expiresAt, false);
    var n := m[key := m[key].(expiresAt := expiresAt, ttl := ttl)];
    ClosedKeepsOthers(m, ledger, key, now, expiresAt, false);
    SameKeysSameLast(ledger, closed, key);
    assert OpenAt(m, key, ledger, now);
    forall other
      ensures OpenAt(n, other, closed, now)
    {
      assert other != key ==> OpenAt(m, other, closed, now);
    }
    forall i
      ensures OverAt(n, closed, i, now)
    {
      assert OverAt(m, ledger, i, now);
    }
  }

  lemma ReleaseKeepsTracks<K(!new)>(m: Table<K>, ledger: seq<Tenure<K, real>>, key: K, now: real)
    requires Tracks(m, ledger, now) && key in m
    ensures Tracks(m - {key}, Closed(ledger, key, Min(now, m[key].expiresAt), true), now)
  {
    var end := Min(now, m[key].expiresAt);
    var closed := Closed(ledger, key, end, true);
    var last := LastTenure(ledger, key);
    ClosedKeepsOthers(m, ledger, key, now, end, true);
    assert OpenAt(m, key, ledger, now);
    var rest := m - {key};
    forall other
      ensures OpenAt(rest, other, closed, now)
    {
      assert other != key ==> OpenAt(m, other, closed, now);
    }
    forall i
      ensures OverAt(rest, closed, i, now)
    {
      assert OverAt(m, ledger, i, now);
      if 0 <= i < |closed| && closed[i].key == key && i != last {
        assert i < last;
        assert EndedBefore(ledger[i], ledger[last].start);
      }
    }
  }

  /** A token that another acquisition has superseded can neither renew nor release any more. */
  lemma SupersededTokenIsPowerless<K(!new)>(
    m: Table<K>, ledger: seq<Tenure<K, real>>, clock: real, i: nat, j: nat, ttl: real, now: real)
    requires Tracks(m, ledger, clock) && i < j < |ledger| && ledger[i].key == ledger[j].key
    ensures !AfterRenew(m, ledger[i].key, ledger[i].holder, ttl, now).1.success
    ensures !AfterRelease(m, ledger[i].key, ledger[i].holder, now).1.success
  {
    var key := ledger[i].key;
    assert OpenAt(m, key, ledger, clock);
    var last := LastTenure(ledger, key);
    assert j <= last;
    assert key in m ==> m[key].token == ledger[last].holder;
  }

  /** The latest tenure of the lock is still running. */
  ghost predicate Running<K>(ledger: seq<Tenure<K, real>>, key: K, now: real)
  {
    var i := LastTenure(ledger, key);
    i >= 0 && !ledger[i].released && now <= ledger[i].end
  }

  /**
   * The history of tenures alone decides the answers: a lock is held while its latest tenure runs, can be acquired
   * at any other time, and can be renewed with the token of the running tenure only. Sweeps leave a trace in one
   * case: the token of an expired tenure releases the lock as long as its lease has not been removed.
   */
  lemma AnswersFollowHistory<K(!new)>(
    m: Table<K>, ledger: seq<Tenure<K, real>>, clock: real, key: K, holder: string, ttl: real, token: string, now: real)
    requires Tracks(m, ledger, clock) && clock <= now
    ensures var i := LastTenure(ledger, key);
            var mine := i >= 0 && ledger[i].holder == token;
            && (Held(m, key, now) <==> Running(ledger, key, now))
            && (AfterAcquire(m, key, holder, ttl, token, now).1.success <==> !Running(ledger, key, now))
            && (AfterRenew(m, key, token, ttl, now).1.success <==> Running(ledger, key, now) && mine)
            && (Running(ledger, key, now) ==> (AfterRelease(m, key, token, now).1.success <==> mine))
            && (!Running(ledger, key, now) ==> (AfterRelease(m, key, token, now).1.success <==> mine && key in m))
  {
    assert OpenAt(m, key, ledger, clock);
    assert OverAt(m, ledger, LastTenure(ledger, key), clock);
  }
}
