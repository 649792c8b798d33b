/** Whole runs of a lease manager: any operations, by anyone, at non-decreasing times. */
module LeaseRuns {
  import opened Options
  import opened Tenures
  import opened Leases

  /** The table, the history of tenures, and the time of the latest operation. */
  datatype State<K(==)> = State(m: Table<K>, ledger: seq<Tenure<K, real>>, clock: real)

  function Grants<K(==)>(
    ledger: seq<Tenure<K, real>>, key: K, token: string, now: real, ttl: real): seq<Tenure<K, real>>
  {
    ledger + [Tenure(key, token, now, now + ttl, false)]
  }

  predicate Succeeds<K>(result: Option<LockResult<K>>)
  {
    result.Some? && result.value.success
  }

  /** What an operation adds to the history, or changes in it. */
  ghost function LedgerAfter<K>(
    m: Table<K>, limit: Option<nat>, ledger: seq<Tenure<K, real>>, t: Timed<K>): seq<Tenure<K, real>>
  {
    match t.op
    case Acquire(key, holder, ttl, token) =>
      if Succeeds(AfterAcquireWithin(m, limit, key, holder, ttl, token, t.now).1)
      then Grants(ledger, key, token, t.now, ttl) else ledger
    case Renew(key, token, ttl) =>
      if AfterRenew(m, key, token, ttl, t.now).1.success then Closed(ledger, key, t.now + ttl, false) else ledger
    case Release(key, token) =>
      if AfterRelease(m, key, token, t.now).1.success
      then Closed(ledger, key, Min(t.now, m[key].expiresAt), true) else ledger
    case ForceRelease(key) =>
      if key in m then Closed(ledger, key, Min(t.now, m[key].expiresAt), true) else ledger
    case _ => ledger
  }

  ghost function After<K>(s: State<K>, limit: Option<nat>, t: Timed<K>): State<K>
  {
    State(Exec(s.m, limit, t), LedgerAfter(s.m, limit, s.ledger, t), t.now)
  }

  ghost predicate UsesFreshToken<K>(s: State<K>, t: Timed<K>)
  {
    t.op.Acquire? ==> FreshToken(s.ledger, t.op.token)
  }

  ghost predicate StepAt<K(!new)>(states: seq<State<K>>, limit: Option<nat>, ops: seq<Timed<K>>, i: nat)
    requires i < |ops| < |states|
  {
    && states[i].clock <= ops[i].now && UsesFreshToken(states[i], ops[i])
    && states[i + 1] == After(states[i], limit, ops[i])
  }

  /** A run of the manager with the given cap, or of the one without. */
  ghost predicate IsRun<K(!new)>(states: seq<State<K>>, limit: Option<nat>, ops: seq<Timed<K>>)
  {
    && |states| == |ops| + 1
    && states[0].m == map[] && states[0].ledger == []
    && forall i :: 0 <= i < |ops| ==> StepAt(states, limit, ops, i)
  }

  ghost predicate Good<K(!new)>(s: State<K>)
  {
    Tracks(s.m, s.ledger, s.clock)
  }

  lemma AcquireKeepsTracks<K(!new)>(
    m: Table<K>, ledger: seq<Tenure<K, real>>, key: K, holder: string, ttl: real, token: string, now: real)
    requires Tracks(m, ledger, now) && FreshToken(ledger, token)
    ensures var (after, r) := AfterAcquire(m, key, holder, ttl, token, now);
            Tracks(after, if r.success then Grants(ledger, key, token, now, ttl) else ledger, now)
  {
    if !Held(m, key, now) {
      GrantKeepsTracks(m, ledger, key, Lease(key, holder, now, now + ttl, ttl, token), now);
    }
  }

  lemma RenewalKeepsTracks<K(!new)>(
    m: Table<K>, ledger: seq<Tenure<K, real>>, key: K, token: string, ttl: real, now: real)
    requires Tracks(m, ledger, now)
    ensures var (after, r) := AfterRenew(m, key, token, ttl, now);
            Tracks(after, if r.success then Closed(ledger, key, now + ttl, false) else ledger, now)
  {
    if key in m && m[key].token == token {
      if Expired(m[key], now) {
        DropKeepsTracks(m, ledger, now, m - {key}, now);
      } else {
        RenewKeepsTracks(m, ledger, key, now + ttl, ttl, now);
      }
    }
  }

  lemma ReturnKeepsTracks<K(!new)>(m: Table<K>, ledger: seq<Tenure<K, real>>, key: K, token: string, now: real)
    requires Tracks(m, ledger, now)
    ensures var (after, r) := AfterRelease(m, key, token, now);
            Tracks(after, if r.success then Closed(ledger, key, Min(now, m[key].expiresAt), true) else ledger, now)
  {
    if key in m && m[key].token == token {
      ReleaseKeepsTracks(m, ledger, key, now);
    }
  }

  lemma ForceKeepsTracks<K(!new)>(m: Table<K>, ledger: seq<Tenure<K, real>>, key: K, now: real)
    requires Tracks(m, ledger, now)
    ensures Tracks(
              AfterForceRelease(m, key, now).0,
              if key in m then Closed(ledger, key, Min(now, m[key].expiresAt), true) else ledger, now)
  {
    if key in m {
      ReleaseKeepsTracks(m, ledger, key, now);
    }
  }

  lemma SweepKeepsTracks<K(!new)>(m: Table<K>, ledger: seq<Tenure<K, real>>, now: real)
    requires Tracks(m, ledger, now)
    ensures Tracks(Live(m, now), ledger, now)
  {
    DropKeepsTracks(m, ledger, now, Live(m, now), now);
  }

  lemma RoomKeepsTracks<K(!new)>(
    m: Table<K>, ledger: seq<Tenure<K, real>>, cap: nat, key: K, now: real) returns (room: Table<K>)
    requires Tracks(m, ledger, now) && !Held(m, key, now)
    ensures room == if |m - {key}| >= cap then Live(m - {key}, now) else m - {key}
    ensures Tracks(room, ledger, now) && !Held(room, key, now)
  {
    LiveOfPart(m, key, now);
    room := if |m - {key}| >= cap then Live(m - {key}, now) else m - {key};
    DropKeepsTracks(m, ledger, now, room, now);
  }

  lemma CappedKeepsTracks<K(!new)>(
    m: Table<K>, ledger: seq<Tenure<K, real>>, cap: nat, key: K, holder: string, ttl: real, token: string, now: real)
    requires Tracks(m, ledger, now) && FreshToken(ledger, token)
    ensures var (after, r) := AfterCappedAcquire(m, cap, key, holder, ttl, token, now);
            Tracks(after, if Succeeds(r) then Grants(ledger, key, token, now, ttl) else ledger, now)
  {
    if !Held(m, key, now) {
      var room := RoomKeepsTracks(m, ledger, cap, key, now);
      if |room| < cap {
        GrantKeepsTracks(room, ledger, key, Lease(key, holder, now, now + ttl, ttl, token), now);
      }
    }
  }

  lemma WithinKeepsTracks<K(!new)>(
    m: Table<K>, ledger: seq<Tenure<K, real>>, limit: Option<nat>,
    key: K, holder: string, ttl: real, token: string, now: real)
    requires Tracks(m, ledger, now) && FreshToken(ledger, token)
    ensures var (after, r) := AfterAcquireWithin(m, limit, key, holder, ttl, token, now);
            Tracks(after, if Succeeds(r) then Grants(ledger, key, token, now, ttl) else ledger, now)
  {
    match limit
    case None => AcquireKeepsTracks(m, ledger, key, holder, ttl, token, now);
    case Some(cap) => CappedKeepsTracks(m, ledger, cap, key, holder, ttl, token, now);
  }

  lemma ExecKeepsTracks<K(!new)>(m: Table<K>, limit: Option<nat>, ledger: seq<Tenure<K, real>>, t: Timed<K>)
    requires Tracks(m, ledger, t.now) && (t.op.Acquire? ==> FreshToken(ledger, t.op.token))
    ensures Tracks(Exec(m, limit, t), LedgerAfter(m, limit, ledger, t), t.now)
  {
    match t.op
    case Acquire(key, holder, ttl, token) => WithinKeepsTracks(m, ledger, limit, key, holder, ttl, token, t.now);
    case Renew(key, token, ttl) => RenewalKeepsTracks(m, ledger, key, token, ttl, t.now);
    case Release(key, token) => ReturnKeepsTracks(m, ledger, key, token, t.now);
    case ForceRelease(key) => ForceKeepsTracks(m, ledger, key, t.now);
    case AskHeld(_) =>
    case AskActive =>
    case Sweep => SweepKeepsTracks(m, ledger, t.now);
  }

  /** Every operation keeps the table and the history of tenures matched. */
  lemma OpKeepsGood<K(!new)>(s: State<K>, limit: Option<nat>, t: Timed<K>)
    requires Good(s) && s.clock <= t.now && UsesFreshToken(s, t)
    ensures Good(After(s, limit, t))
  {
    TracksLater(s.m, s.ledger, s.clock, t.now);
    ExecKeepsTracks(s.m, limit, s.ledger, t);
  }

  lemma StartIsGood<K(!new)>(s: State<K>)
    requires s.m == map[] && s.ledger == []
    ensures Good(s)
  {
  }

  lemma {:induction false} RunIsGood<K(!new)>(states: seq<State<K>>, limit: Option<nat>, ops: seq<Timed<K>>, n: nat)
    requires IsRun(states, limit, ops) && n <= |ops|
    ensures Good(states[n])
  {
    if n == 0 {
      StartIsGood(states[0]);
    } else {
      var s, t := states[n - 1], ops[n - 1];
      RunIsGood(states, limit, ops, n - 1);
      assert StepAt(states, limit, ops, n - 1);
      OpKeepsGood(s, limit, t);
      assert states[n] == After(s, limit, t);
    }
  }

  /** A later history has all the tenures of an earlier one, with the same locks and tokens, at the same places. */
  ghost predicate Extends<K>(later: seq<Tenure<K, real>>, earlier: seq<Tenure<K, real>>)
  {
    && |earlier| <= |later|
    && forall i :: 0 <= i < |earlier| ==> later[i].key == earlier[i].key && later[i].holder == earlier[i].holder
  }

  lemma {:induction false} HistoryExtends<K(!new)>(
    states: seq<State<K>>, limit: Option<nat>, ops: seq<Timed<K>>, k: nat, n: nat)
    requires IsRun(states, limit, ops) && k <= n <= |ops|
    ensures Extends(states[n].ledger, states[k].ledger)
    decreases n
  {
    if k < n {
      HistoryExtends(states, limit, ops, k, n - 1);
      assert StepAt(states, limit, ops, n - 1);
      assert Extends(After(states[n - 1], limit, ops[n - 1]).ledger, states[n - 1].ledger);
    }
  }

  /** In every run the tenures of one lock under different tokens never overlap. */
  lemma TenuresNeverOverlap<K(!new)>(
    states: seq<State<K>>, limit: Option<nat>, ops: seq<Timed<K>>, n: nat, i: nat, j: nat)
    requires IsRun(states, limit, ops) && n <= |ops|
    requires i < j < |states[n].ledger| && states[n].ledger[i].key == states[n].ledger[j].key
    ensures states[n].ledger[i].holder != states[n].ledger[j].holder
    ensures EndedBefore(states[n].ledger[i], states[n].ledger[j].start)
  {
    RunIsGood(states, limit, ops, n);
  }

  /** Once a lock has been acquired under another token, the old token never renews or releases it again. */
  lemma SupersededForever<K(!new)>(
    states: seq<State<K>>, limit: Option<nat>, ops: seq<Timed<K>>, k: nat, i: nat, j: nat, n: nat, ttl: real, now: real)
    requires IsRun(states, limit, ops) && k <= n <= |ops|
    requires i < j < |states[k].ledger| && states[k].ledger[i].key == states[k].ledger[j].key
    ensures var first := states[k].ledger[i];
            && !AfterRenew(states[n].m, first.key, first.holder, ttl, now).1.success
            && !AfterRelease(states[n].m, first.key, first.holder, now).1.success
  {
    RunIsGood(states, limit, ops, n);
    HistoryExtends(states, limit, ops, k, n);
    SupersededTokenIsPowerless(states[n].m, states[n].ledger, states[n].clock, i, j, ttl, now);
  }

  /** In every run of the capped manager there are never more leases than the cap. */
  lemma {:induction false} CapIsNeverExceeded<K(!new)>(states: seq<State<K>>, cap: nat, ops: seq<Timed<K>>, n: nat)
    requires IsRun(states, Some(cap), ops) && n <= |ops| && cap > 0
    ensures |states[n].m| <= cap
  {
    if n > 0 {
      CapIsNeverExceeded(states, cap, ops, n - 1);
      assert StepAt(states, Some(cap), ops, n - 1);
      ExecFits(states[n - 1].m, Some(cap), ops[n - 1]);
    }
  }
}
