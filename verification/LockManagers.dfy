/** The lock manager, and its variant for book chapters with a cap on the number of leases. */
module LockManagers {
  import opened Options
  import opened FiniteSets
  import opened Tenures
  import opened Leases
  import opened LeaseRuns

  /** All operations of both managers keep this; the ledger is the history of their tenures. */
  class LeaseTable<K(==,!new)> {
    var leases: Table<K>
    ghost var ledger: seq<Tenure<K, real>>
    ghost var clock: real

    ghost predicate Valid()
      reads this
    {
      Tracks(leases, ledger, clock)
    }

    /** The state of a run that this manager is in. */
    ghost function Now(): State<K>
      reads this
    {
      State(leases, ledger, clock)
    }

    constructor (now: real)
      ensures Valid() && leases == map[] && ledger == [] && clock == now
    {
      leases := map[];
      ledger := [];
      clock := now;
    }

    /** Removes an expired lease of `key`; returns the unexpired one, if there is one. */
    method DropIfExpired(key: K, now: real) returns (existing: Option<Lease<K>>)
      requires Valid() && clock <= now
      modifies this
      ensures Valid() && clock == now && ledger == old(ledger)
      ensures existing == if Held(old(leases), key, now) then Some(old(leases)[key]) else None
      ensures leases == if existing.Some? then old(leases) else old(leases) - {key}
    {
      TracksLater(leases, ledger, clock, now);
      clock := now;
      if key !in leases {
        return None;
      }
      if !Expired(leases[key], now) {
        return Some(leases[key]);
      }
      DropKeepsTracks(leases, ledger, now, leases - {key}, now);
      leases := leases - {key};
      existing := None;
    }

    method Grant(key: K, holder: string, ttl: real, token: string, now: real) returns (r: LockResult<K>)
      requires Valid() && clock == now && FreshToken(ledger, token) && !Held(leases, key, now)
      modifies this
      ensures Valid() && clock == now
      ensures var lease := Lease(key, holder, now, now + ttl, ttl, token);
              leases == old(leases)[key := lease] && r == LockResult(true, now, WasAcquired, Some(lease), None)
      ensures ledger == old(ledger) + [Tenure(key, token, now, now + ttl, false)]
    {
      var lease := Lease(key, holder, now, now + ttl, ttl, token);
      GrantKeepsTracks(leases, ledger, key, lease, now);
      leases := leases[key := lease];
      ledger := ledger + [Tenure(key, token, now, now + ttl, false)];
      r := LockResult(true, now, WasAcquired, Some(lease), None);
    }

    /** `token` is a new random identifier. */
    method Acquire(key: K, holder: string, ttl: real, token: string, now: real) returns (r: LockResult<K>)
      requires Valid() && clock <= now && FreshToken(ledger, token)
      modifies this
      ensures Valid() && clock == now
      ensures (leases, r) == AfterAcquire(old(leases), key, holder, ttl, token, now)
      ensures Now() == After(old(Now()), None, Timed(Op.Acquire(key, holder, ttl, token), now))
      ensures r.success <==> key !in old(leases) || now > old(leases)[key].expiresAt
      ensures r.timestamp == now
      ensures r.success ==>
                && r.reason == WasAcquired && r.conflictHolder == None
                && leases == old(leases)[key := Lease(key, holder, now, now + ttl, ttl, token)]
                && r.lease == Some(leases[key])
      ensures !r.success ==>
                && r.reason == IsHeld && r.conflictHolder == Some(old(leases)[key].holder)
                && r.lease == None && leases == old(leases)
      ensures ledger == if r.success then old(ledger) + [Tenure(key, token, now, now + ttl, false)] else old(ledger)
    {
      var existing := DropIfExpired(key, now);
      if existing.Some? {
        return Refused(now, IsHeld, Some(existing.value.holder));
      }
      UpdateAfterDrop(old(leases), key, Lease(key, holder, now, now + ttl, ttl, token));
      r := Grant(key, holder, ttl, token, now);
    }

    /** The same with a cap; `None` is the error when the table is full of unexpired leases. */
    method AcquireCapped(cap: nat, key: K, holder: string, ttl: real, token: string, now: real)
      returns (r: Option<LockResult<K>>)
      requires Valid() && clock <= now && FreshToken(ledger, token)
      modifies this
      ensures Valid() && clock == now
      ensures (leases, r) == AfterCappedAcquire(old(leases), cap, key, holder, ttl, token, now)
      ensures Now() == After(old(Now()), Some(cap), Timed(Op.Acquire(key, holder, ttl, token), now))
      ensures r.Some? && r.value.success ==>
                && key in leases && leases[key] == Lease(key, holder, now, now + ttl, ttl, token)
                && r.value.lease == Some(leases[key]) && r.value.reason == WasAcquired
      ensures r.Some? && !r.value.success ==>
                && key in old(leases) && now <= old(leases)[key].expiresAt && leases == old(leases)
                && r.value.reason == IsHeld && r.value.conflictHolder == Some(old(leases)[key].holder)
      ensures ledger == if r.Some? && r.value.success
              then old(ledger) + [Tenure(key, token, now, now + ttl, false)] else old(ledger)
    {
      var existing := DropIfExpired(key, now);
      if existing.Some? {
        return Some(Refused(now, IsHeld, Some(existing.value.holder)));
      }
      var room := MakeRoom(cap, now);
      if !room {
        return None;
      }
      var granted := Grant(key, holder, ttl, token, now);
      r := Some(granted);
    }

    /** Sweeps if the table is full, and says whether there is room then. */
    method MakeRoom(cap: nat, now: real) returns (room: bool)
      requires Valid() && clock == now
      modifies this
      ensures Valid() && clock == now && ledger == old(ledger)
      ensures leases == if |old(leases)| >= cap then Live(old(leases), now) else old(leases)
      ensures room <==> |leases| < cap
    {
      if |leases| >= cap {
        var _ := SweepExpired(now);
      }
      room := |leases| < cap;
    }

    method Renew(key: K, token: string, ttl: real, now: real) returns (r: LockResult<K>)
      requires Valid() && clock <= now
      modifies this
      ensures Valid() && clock == now
      ensures (leases, r) == AfterRenew(old(leases), key, token, ttl, now)
      ensures forall limit :: Now() == After(old(Now()), limit, Timed(Op.Renew(key, token, ttl), now))
      ensures r.success <==>
              key in old(leases) && old(leases)[key].token == token && now <= old(leases)[key].expiresAt
      ensures r.success ==>
                && leases == old(leases)[key := old(leases)[key].(expiresAt := now + ttl, ttl := ttl)]
                && r.lease == Some(leases[key]) && r.reason == WasRenewed
      ensures !r.success ==> r.lease == None
      ensures r.reason == NotFound <==> key !in old(leases)
      ensures r.reason == InvalidToken <==> key in old(leases) && old(leases)[key].token != token
      ensures r.reason == InvalidToken ==> r.conflictHolder == Some(old(leases)[key].holder) && leases == old(leases)
      ensures r.reason == ExpiredBeforeRenew ==> leases == old(leases) - {key}
      ensures ledger == if r.success then Closed(old(ledger), key, now + ttl, false) else old(ledger)
    {
      TracksLater(leases, ledger, clock, now);
      clock := now;
      if key !in leases {
        return Refused(now, NotFound, None);
      }
      var existing := leases[key];
      if existing.token != token {
        return Refused(now, InvalidToken, Some(existing.holder));
      }
      if Expired(existing, now) {
        DropKeepsTracks(leases, ledger, now, leases - {key}, now);
        leases := leases - {key};
        return Refused(now, ExpiredBeforeRenew, None);
      }
      var renewed := existing.(expiresAt := now + ttl, ttl := ttl);
      RenewKeepsTracks(leases, ledger, key, now + ttl, ttl, now);
      leases := leases[key := renewed];
      ledger := Closed(ledger, key, now + ttl, false);
      r := LockResult(true, now, WasRenewed, Some(renewed), None);
    }

    method Release(key: K, token: string, now: real) returns (r: LockResult<K>)
      requires Valid() && clock <= now
      modifies this
      ensures Valid() && clock == now
      ensures (leases, r) == AfterRelease(old(leases), key, token, now)
      ensures forall limit :: Now() == After(old(Now()), limit, Timed(Op.Release(key, token), now))
      ensures r.success <==> key in old(leases) && old(leases)[key].token == token
      ensures leases == if r.success then old(leases) - {key} else old(leases)
      ensures r.success ==> r.reason == WasReleased
      ensures r.reason == NotFound <==> key !in old(leases)
      ensures r.reason == InvalidToken ==> r.conflictHolder == Some(old(leases)[key].holder)
      ensures ledger == if r.success
              then Closed(old(ledger), key, Min(now, old(leases)[key].expiresAt), true) else old(ledger)
    {
      TracksLater(leases, ledger, clock, now);
      clock := now;
      if key !in leases {
        return Refused(now, NotFound, None);
      }
      if leases[key].token != token {
        return Refused(now, InvalidToken, Some(leases[key].holder));
      }
      ReleaseKeepsTracks(leases, ledger, key, now);
      ledger := Closed(ledger, key, Min(now, leases[key].expiresAt), true);
      leases := leases - {key};
      r := LockResult(true, now, WasReleased, None, None);
    }

    method ForceRelease(key: K, now: real) returns (r: LockResult<K>)
      requires Valid() && clock <= now
      modifies this
      ensures Valid() && clock == now
      ensures (leases, r) == AfterForceRelease(old(leases), key, now)
      ensures forall limit :: Now() == After(old(Now()), limit, Timed(Op.ForceRelease(key), now))
      ensures (r.success <==> key in old(leases)) && leases == old(leases) - {key}
      ensures r.reason == if r.success then WasForceReleased else NotFound
      ensures ledger == if r.success
              then Closed(old(ledger), key, Min(now, old(leases)[key].expiresAt), true) else old(ledger)
    {
      TracksLater(leases, ledger, clock, now);
      clock := now;
      if key !in leases {
        return Refused(now, NotFound, None);
      }
      ReleaseKeepsTracks(leases, ledger, key, now);
      ledger := Closed(ledger, key, Min(now, leases[key].expiresAt), true);
      leases := leases - {key};
      r := LockResult(true, now, WasForceReleased, None, None);
    }

    method SweepExpired(now: real) returns (count: nat)
      requires Valid() && clock <= now
      modifies this
      ensures Valid() && clock == now && ledger == old(ledger)
      ensures leases == Live(old(leases), now) && count == |old(leases)| - |leases|
      ensures forall limit :: Now() == After(old(Now()), limit, Timed(Sweep, now))
      ensures forall key :: key in leases <==> key in old(leases) && now <= old(leases)[key].expiresAt
    {
      DropKeepsTracks(leases, ledger, clock, Live(leases, now), now);
      var expired := set key | key in leases && Expired(leases[key], now);
      WithoutExpiredIsLive(leases, expired, now);
      leases, count := Without(leases, expired);
      clock := now;
    }

    /** Deletes the given keys one by one and counts them. */
    static method Without(table: Table<K>, keys: set<K>) returns (left: Table<K>, count: nat)
      requires keys <= table.Keys
      ensures left == table - keys && count == |table| - |left|
    {
      left, count := table, 0;
      var rest := keys;
      while rest != {}
        invariant rest <= keys
        invariant forall key :: key in left <==> key in table && (key in keys ==> key in rest)
        invariant forall key :: key in left ==> left[key] == table[key]
        invariant |left| + count == |table|
      {
        ghost var member := SomeMember(rest);
        var key :| key in rest;
        DropOne(left, key);
        left := left - {key};
        rest := rest - {key};
        count := count + 1;
      }
    }

    method IsHeldNow(key: K, now: real) returns (held: bool)
      ensures held <==> key in leases && now <= leases[key].expiresAt
    {
      held := key in leases && !Expired(leases[key], now);
    }

    method ListActive(now: real) returns (active: Table<K>)
      ensures active == Live(leases, now)
      ensures forall key :: key in active <==> key in leases && now <= leases[key].expiresAt
      ensures forall key :: key in active ==> active[key] == leases[key]
    {
      active := map key | key in leases && !Expired(leases[key], now) :: leases[key];
    }
  }
}
