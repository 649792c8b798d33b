/** Signed single-use approval tokens, deploy locks, and the atomic pre-deploy pipeline. */
module ApprovalGates {
  import opened Options
  import opened AuditLogs
  import opened Tenures

  const TOKEN_TTL_SECONDS: int := 24 * 60 * 60

  datatype ApprovalToken = ApprovalToken(
    requester: string, resource: string, action: string, issuedAt: int, expiresAt: int,
    nonce: string, signature: string)

  datatype DualApprovalToken = DualApprovalToken(primary: ApprovalToken, secondary: ApprovalToken, requester: string)

  datatype ApprovalRow = ApprovalRow(
    requester: string, resource: string, action: string, issuedAt: int, expiresAt: int,
    usedAt: Option<int>, revokedAt: Option<int>)

  datatype LockRow = LockRow(holder: string, acquiredAt: int, expiresAt: int)

  type Approvals = map<string, ApprovalRow>
  type Locks = map<string, LockRow>
  type Chain = map<int, AuditEntry>

  datatype Database = Database(approvals: Approvals, locks: Locks, chain: Chain)

  /** HMAC over requester, resource, action, issue time, expiry and nonce. */
  type Signer = (string, string, string, int, int, string) -> string

  datatype Issued = Token(token: ApprovalToken) | PermissionError | ValueError

  datatype DualIssued = Tokens(tokens: DualApprovalToken) | DualPermissionError | DualValueError

  /** The checks that need no table: signature, resource, action and expiry. */
  predicate Genuine(sign: Signer, t: ApprovalToken, resource: string, action: string, now: int)
  {
    && t.signature == sign(t.requester, t.resource, t.action, t.issuedAt, t.expiresAt, t.nonce)
    && t.resource == resource && t.action == action
    && now < t.expiresAt
  }

  predicate Unused(approvals: Approvals, nonce: string)
  {
    nonce in approvals && approvals[nonce].usedAt == None && approvals[nonce].revokedAt == None
  }

  function MarkUsed(approvals: Approvals, nonce: string, now: int): Approvals
    requires nonce in approvals
  {
    approvals[nonce := approvals[nonce].(usedAt := Some(now))]
  }

  function MarkRevoked(approvals: Approvals, nonce: string, now: int): Approvals
  {
    if nonce in approvals && approvals[nonce].revokedAt == None
    then approvals[nonce := approvals[nonce].(revokedAt := Some(now))]
    else approvals
  }

  predicate ThreeDistinct(d: DualApprovalToken)
  {
    && d.requester != d.primary.requester && d.primary.requester != d.secondary.requester
    && d.requester != d.secondary.requester
  }

  /** Both tokens are genuine, held by three different parties, and both can be consumed. */
  predicate Approved(
    sign: Signer, d: DualApprovalToken, resource: string, action: string, now: int, approvals: Approvals)
  {
    && ThreeDistinct(d)
    && Genuine(sign, d.primary, resource, action, now) && Genuine(sign, d.secondary, resource, action, now)
    && Unused(approvals, d.primary.nonce) && Unused(approvals, d.secondary.nonce)
    && d.primary.nonce != d.secondary.nonce
  }

  function Unexpired(locks: Locks, now: int): Locks
  {
    map resource | resource in locks && now < locks[resource].expiresAt :: locks[resource]
  }

  function FirstSixteen(nonce: string): string
  {
    if |nonce| <= 16 then nonce else nonce[..16]
  }

  function PairNonce(d: DualApprovalToken): string
  {
    FirstSixteen(d.primary.nonce) + "+" + FirstSixteen(d.secondary.nonce)
  }

  function DeployEntry(
    hash: Hasher, last: Option<AuditEntry>, d: DualApprovalToken, resource: string, action: string, now: int)
    : AuditEntry
  {
    NextEntry(hash, last, now, "pre_deploy:" + action, resource, d.requester, PairNonce(d))
  }

  /** The row can be inserted: its fields are present and its index is not taken. */
  predicate Stages(chain: Chain, e: AuditEntry)
  {
    e.content.resource != "" && e.content.requester != "" && e.content.blockIndex !in chain
  }

  /** When the whole transaction of `pre_deploy_atomic` commits. */
  predicate Commits(
    sign: Signer, db: Database, d: DualApprovalToken, resource: string, action: string, now: int, e: AuditEntry)
  {
    && Approved(sign, d, resource, action, now, db.approvals)
    && resource !in Unexpired(db.locks, now) && Stages(db.chain, e)
  }

  function AfterDeploy(
    db: Database, d: DualApprovalToken, resource: string, holder: string, now: int, e: AuditEntry): Database
    requires d.primary.nonce in db.approvals && d.secondary.nonce in db.approvals
  {
    Database(
      MarkUsed(MarkUsed(db.approvals, d.primary.nonce, now), d.secondary.nonce, now),
      Unexpired(db.locks, now)[resource := LockRow(holder, now, now + TOKEN_TTL_SECONDS)],
      db.chain[e.content.blockIndex := e])
  }

  // ---- what these mean, field by field -------------------------------------------------------------

  /** The transaction commits for three parties with two fresh tokens for this very deploy, a free lock and index. */
  lemma CommitsMeans(
    sign: Signer, db: Database, d: DualApprovalToken, resource: string, action: string, now: int, e: AuditEntry)
    ensures Commits(sign, db, d, resource, action, now, e) <==>
            && |{d.requester, d.primary.requester, d.secondary.requester}| == 3
            && (forall t :: t in [d.primary, d.secondary] ==>
                  && t.resource == resource && t.action == action && now < t.expiresAt
                  && t.signature == sign(t.requester, t.resource, t.action, t.issuedAt, t.expiresAt, t.nonce)
                  && t.nonce in db.approvals
                  && db.approvals[t.nonce].usedAt == None && db.approvals[t.nonce].revokedAt == None)
            && d.primary.nonce != d.secondary.nonce
            && (resource in db.locks ==> db.locks[resource].expiresAt <= now)
            && e.content.resource != "" && e.content.requester != "" && e.content.blockIndex !in db.chain
  {
    assert d.primary in [d.primary, d.secondary] && d.secondary in [d.primary, d.secondary];
    ThreeAreDistinct(d.requester, d.primary.requester, d.secondary.requester);
  }

  lemma ThreeAreDistinct(a: string, b: string, c: string)
    ensures |{a, b, c}| == 3 <==> a != b && b != c && a != c
  {
    if a == b {
      assert {a, b, c} == {b, c};
    } else if b == c || a == c {
      assert {a, b, c} == {a, b};
    }
  }

  /** The commit marks the two tokens, takes the lock for a day, drops expired locks and adds one row. */
  lemma AfterDeployMeans(
    db: Database, d: DualApprovalToken, resource: string, holder: string, now: int, e: AuditEntry)
    requires d.primary.nonce in db.approvals && d.secondary.nonce in db.approvals
    ensures var t := AfterDeploy(db, d, resource, holder, now, e);
            && t.approvals.Keys == db.approvals.Keys
            && (forall n :: n in db.approvals ==>
                  t.approvals[n] == if n == d.primary.nonce || n == d.secondary.nonce
                                    then db.approvals[n].(usedAt := Some(now)) else db.approvals[n])
            && resource in t.locks && t.locks[resource] == LockRow(holder, now, now + 86400)
            && (forall other :: other != resource ==>
                  && (other in t.locks <==> other in db.locks && now < db.locks[other].expiresAt)
                  && (other in t.locks ==> t.locks[other] == db.locks[other]))
            && t.chain == db.chain[e.content.blockIndex := e]
  {
  }

  /** The row names the deploy, its requester, its time, and the first sixteen characters of each nonce. */
  lemma DeployEntryMeans(
    hash: Hasher, last: Option<AuditEntry>, d: DualApprovalToken, resource: string, action: string, now: int)
    ensures var e := DeployEntry(hash, last, d, resource, action, now);
            var (p, q) := (d.primary.nonce, d.secondary.nonce);
            && e.content.action == "pre_deploy:" + action && e.content.resource == resource
            && e.content.requester == d.requester && e.content.timestamp == now
            && (|p| >= 16 && |q| >= 16 ==> e.content.nonce == p[..16] + "+" + q[..16])
            && (|p| < 16 && |q| < 16 ==> e.content.nonce == p + "+" + q)
            && e.blockHash == hash(e.prevHash, e.content)
            && (last.Some? ==> e.content.blockIndex == last.value.content.blockIndex + 1)
            && (last.Some? ==> e.prevHash == last.value.blockHash)
            && (last.None? ==> e.content.blockIndex == 0 && e.prevHash == GENESIS_HASH)
  {
  }

  // ---- deploy-lock tenures -------------------------------------------------------------------------

  function Min(a: int, b: int): (m: int)
    ensures m <= a && m <= b && (m == a || m == b)
  {
    if a < b then a else b
  }

  /** Two tenures of one lock share at most an end point. */
  ghost predicate Disjoint<K>(ledger: seq<Tenure<K, int>>)
  {
    forall i, j :: 0 <= i < j < |ledger| && ledger[i].key == ledger[j].key ==> ledger[i].end <= ledger[j].start
  }

  /** Every tenure of `key` had ended by `now`. */
  ghost predicate AllEnded<K>(ledger: seq<Tenure<K, int>>, key: K, now: int)
  {
    forall i :: 0 <= i < |ledger| && ledger[i].key == key ==> ledger[i].end <= now
  }

  /** A row is the latest tenure of its resource, and every tenure without a row has ended. */
  ghost predicate LocksMatchLedger(locks: Locks, ledger: seq<Tenure<string, int>>, clock: int)
  {
    && Disjoint(ledger)
    && (forall resource :: resource !in locks ==> AllEnded(ledger, resource, clock))
    && (forall resource :: resource in locks ==> IsLatestRow(locks[resource], ledger, resource, clock))
  }

  ghost predicate IsLatestRow(row: LockRow, ledger: seq<Tenure<string, int>>, resource: string, clock: int)
  {
    var i := LastTenure(ledger, resource);
    i >= 0 && ledger[i] == Tenure(resource, row.holder, row.acquiredAt, row.expiresAt, false) && row.acquiredAt <= clock
  }

  ghost function Granted(
    ledger: seq<Tenure<string, int>>, resource: string, holder: string, now: int, ttl: int): seq<Tenure<string, int>>
  {
    ledger + [Tenure(resource, holder, now, now + ttl, false)]
  }

  /** Any rows that the table may hold when it is opened have a history. */
  lemma RowsHaveHistory(locks: Locks, clock: int) returns (history: seq<Tenure<string, int>>)
    requires forall resource :: resource in locks ==> locks[resource].acquiredAt <= clock
    ensures LocksMatchLedger(locks, history, clock) && KeysIn(history, locks)
    decreases |locks|
  {
    history := [];
    if locks != map[] {
      assert locks.Keys != {};
      var resource :| resource in locks;
      var rest := locks - {resource};
      assert rest.Keys == locks.Keys - {resource} && |rest| == |rest.Keys| && |locks| == |locks.Keys|;
      history := RowsHaveHistory(rest, clock);
      OneRowMore(rest, history, clock, resource, locks[resource]);
      history := history + [TenureOf(resource, locks[resource])];
      assert rest[resource := locks[resource]] == locks;
    }
  }

  function TenureOf(resource: string, row: LockRow): Tenure<string, int>
  {
    Tenure(resource, row.holder, row.acquiredAt, row.expiresAt, false)
  }

  ghost predicate KeysIn(ledger: seq<Tenure<string, int>>, locks: Locks)
  {
    forall i :: 0 <= i < |ledger| ==> ledger[i].key in locks
  }

  lemma OneRowMore(locks: Locks, ledger: seq<Tenure<string, int>>, clock: int, resource: string, row: LockRow)
    requires LocksMatchLedger(locks, ledger, clock) && KeysIn(ledger, locks)
    requires resource !in locks && row.acquiredAt <= clock
    ensures LocksMatchLedger(locks[resource := row], ledger + [TenureOf(resource, row)], clock)
    ensures KeysIn(ledger + [TenureOf(resource, row)], locks[resource := row])
  {
    var t := TenureOf(resource, row);
    forall other | other in locks
      ensures IsLatestRow(locks[other], ledger + [t], other, clock)
    {
      LastOfGranted(ledger, t, other);
      assert IsLatestRow(locks[other], ledger, other, clock);
    }
    LastOfGranted(ledger, t, resource);
    forall other | other !in locks && other != resource
      ensures AllEnded(ledger + [t], other, clock)
    {
      assert AllEnded(ledger, other, clock);
    }
  }

  lemma LastOfGranted(ledger: seq<Tenure<string, int>>, t: Tenure<string, int>, resource: string)
    ensures LastTenure(ledger + [t], resource) == if t.key == resource then |ledger| else LastTenure(ledger, resource)
  {
    assert (ledger + [t])[..|ledger|] == ledger;
  }

  lemma GrantKeepsDisjoint(
    locks: Locks, ledger: seq<Tenure<string, int>>, clock: int, resource: string, holder: string, now: int, ttl: int)
    requires LocksMatchLedger(locks, ledger, clock) && clock <= now && resource !in Unexpired(locks, now)
    ensures LocksMatchLedger(
              Unexpired(locks, now)[resource := LockRow(holder, now, now + ttl)],
              Granted(ledger, resource, holder, now, ttl), now)
  {
    var t := Tenure(resource, holder, now, now + ttl, false);
    var kept := Unexpired(locks, now);
    LastTenureBounds(locks, ledger, clock, resource, now);
    forall other | other !in kept && other != resource
      ensures AllEnded(ledger + [t], other, now)
    {
      LastTenureBounds(locks, ledger, clock, other, now);
    }
    var granted := kept[resource := LockRow(holder, now, now + ttl)];
    forall other | other in granted
      ensures IsLatestRow(granted[other], ledger + [t], other, now)
    {
      LastOfGranted(ledger, t, other);
    }
  }

  lemma LastTenureBounds(locks: Locks, ledger: seq<Tenure<string, int>>, clock: int, resource: string, now: int)
    requires LocksMatchLedger(locks, ledger, clock) && clock <= now && resource !in Unexpired(locks, now)
    ensures AllEnded(ledger, resource, now)
  {
    if resource in locks {
      assert IsLatestRow(locks[resource], ledger, resource, clock);
      var i := LastTenure(ledger, resource);
      forall j | 0 <= j < |ledger| && ledger[j].key == resource
        ensures ledger[j].end <= now
      {
        assert j <= i;
      }
    } else {
      assert AllEnded(ledger, resource, clock);
    }
  }

  lemma ReleaseKeepsDisjoint(locks: Locks, ledger: seq<Tenure<string, int>>, clock: int, resource: string, now: int)
    requires LocksMatchLedger(locks, ledger, clock) && clock <= now && resource in locks
    ensures LocksMatchLedger(
              locks - {resource}, Closed(ledger, resource, Min(now, locks[resource].expiresAt), true), now)
  {
    var end := Min(now, locks[resource].expiresAt);
    var i := LastTenure(ledger, resource);
    assert IsLatestRow(locks[resource], ledger, resource, clock);
    var closed := Closed(ledger, resource, end, true);
    forall other
      ensures LastTenure(closed, other) == LastTenure(ledger, other)
    {
      SameKeysSameLast(ledger, closed, other);
    }
    forall other | other in locks && other != resource
      ensures IsLatestRow(locks[other], closed, other, now)
    {
      assert IsLatestRow(locks[other], ledger, other, clock);
    }
    forall other | other !in locks - {resource}
      ensures AllEnded(closed, other, now)
    {
      if other == resource {
        forall j | 0 <= j < |closed| && closed[j].key == resource
          ensures closed[j].end <= now
        {
          assert j <= i;
        }
      } else {
        assert AllEnded(ledger, other, clock);
      }
    }
  }

  lemma SameKeysSameLast(a: seq<Tenure<string, int>>, b: seq<Tenure<string, int>>, key: string)
    requires |a| == |b| && forall i :: 0 <= i < |a| ==> a[i].key == b[i].key
    ensures LastTenure(a, key) == LastTenure(b, key)
  {
  }

  class ApprovalGate {
    const sign: Signer
    const authorized: map<string, string>
    const audit: AuditLog
    var db: Database
    ghost var clock: int                      // the time of the latest lock operation
    ghost var ledger: seq<Tenure<string, int>>     // every deploy-lock tenure so far

    ghost predicate Valid()
      reads this
    {
      LocksMatchLedger(db.locks, ledger, clock)
    }

    /** Opens the tables, which may hold rows already; `history` is what led to the rows of `deploy_locks`. */
    constructor (
      sign: Signer, authorized: map<string, string>, audit: AuditLog, existing: Database, now: int,
      ghost history: seq<Tenure<string, int>>)
      requires LocksMatchLedger(existing.locks, history, now)
      ensures Valid() && this.sign == sign && this.authorized == authorized && this.audit == audit
      ensures db == existing && ledger == history && clock == now
    {
      this.sign := sign;
      this.authorized := authorized;
      this.audit := audit;
      db := existing;
      clock := now;
      ledger := history;
    }

    /** `nonce` is the fresh random number of this request. */
    method RequestApproval(resource: string, action: string, requester: string, now: int, nonce: string)
      returns (r: Issued)
      requires Valid() && nonce !in db.approvals
      modifies this`db
      ensures Valid() && db.locks == old(db.locks) && db.chain == old(db.chain)
      ensures r == PermissionError <==> requester !in authorized
      ensures r == ValueError <==> requester in authorized && (resource == "" || action == "")
      ensures r.Token? ==>
                && Genuine(sign, r.token, resource, action, now)
                && r.token.resource == resource && r.token.action == action && r.token.issuedAt == now
                && r.token.signature == sign(requester, resource, action, now, now + TOKEN_TTL_SECONDS, nonce)
                && r.token.requester == requester && r.token.nonce == nonce
                && r.token.expiresAt == now + TOKEN_TTL_SECONDS
                && db.approvals == old(db.approvals)[
                     nonce := ApprovalRow(requester, resource, action, now, now + TOKEN_TTL_SECONDS, None, None)]
      ensures !r.Token? ==> db == old(db)
    {
      if requester !in authorized {
        return PermissionError;
      }
      if resource == "" || action == "" {
        return ValueError;
      }
      var expiresAt := now + TOKEN_TTL_SECONDS;
      var signature := sign(requester, resource, action, now, expiresAt, nonce);
      var row := ApprovalRow(requester, resource, action, now, expiresAt, None, None);
      db := db.(approvals := db.approvals[nonce := row]);
      r := Token(ApprovalToken(requester, resource, action, now, expiresAt, nonce, signature));
    }

    /** `token` is `None` when the text did not parse. No other caller's step falls between the statements here. */
    method VerifyToken(token: Option<ApprovalToken>, resource: string, action: string, now: int) returns (ok: bool)
      requires Valid()
      modifies this`db
      ensures Valid()
      ensures ok <==>
              token.Some? && Genuine(sign, token.value, resource, action, now) &&
              Unused(old(db.approvals), token.value.nonce)
      ensures db == if ok then old(db).(approvals := MarkUsed(old(db.approvals), token.value.nonce, now)) else old(db)
      ensures token.Some? ==>
                var t := token.value;
                (ok <==>
                 && t.signature == sign(t.requester, t.resource, t.action, t.issuedAt, t.expiresAt, t.nonce)
                 && t.resource == resource && t.action == action && now < t.expiresAt
                 && t.nonce in old(db.approvals)
                 && old(db.approvals)[t.nonce].usedAt == None && old(db.approvals)[t.nonce].revokedAt == None)
      ensures ok ==>
                && db.approvals.Keys == old(db.approvals).Keys
                && db.approvals[token.value.nonce] == old(db.approvals)[token.value.nonce].(usedAt := Some(now))
                && forall n :: n in db.approvals && n != token.value.nonce ==> db.approvals[n] == old(db.approvals)[n]
    {
      if token.None? || !Genuine(sign, token.value, resource, action, now) {
        return false;
      }
      var nonce := token.value.nonce;
      if nonce !in db.approvals {
        return false;
      }
      var row := db.approvals[nonce];
      if row.usedAt.Some? || row.revokedAt.Some? {
        return false;
      }
      db := db.(approvals := db.approvals[nonce := row.(usedAt := Some(now))]);
      ok := true;
    }

    method RevokeToken(token: Option<ApprovalToken>, now: int)
      requires Valid()
      modifies this`db
      ensures Valid()
      ensures db == if token.None? then old(db)
                    else old(db).(approvals := MarkRevoked(old(db.approvals), token.value.nonce, now))
      ensures token.Some? ==> !Unused(db.approvals, token.value.nonce)
      ensures db.locks == old(db.locks) && db.chain == old(db.chain) && db.approvals.Keys == old(db.approvals).Keys
      ensures forall n :: n in db.approvals ==>
                var row := old(db.approvals)[n];
                db.approvals[n] == if token.Some? && token.value.nonce == n && row.revokedAt == None
                                   then row.(revokedAt := Some(now)) else row
    {
      if token.Some? {
        db := db.(approvals := MarkRevoked(db.approvals, token.value.nonce, now));
      }
    }

    /** A refused insert also rolls back the removal of expired rows. */
    method AcquireDeployLock(resource: string, holder: string, ttlSeconds: int, now: int) returns (ok: bool)
      requires Valid() && clock <= now
      modifies this`db, this`clock, this`ledger
      ensures Valid() && clock == now
      ensures ok <==> resource !in Unexpired(old(db.locks), now)
      ensures ok <==> resource !in old(db.locks) || old(db.locks)[resource].expiresAt <= now
      ensures ok <==> LastTenure(old(ledger), resource) < 0 || old(ledger)[LastTenure(old(ledger), resource)].end <= now
      ensures ok ==>
                && resource in db.locks && db.locks[resource] == LockRow(holder, now, now + ttlSeconds)
                && forall other :: other != resource ==>
                     && (other in db.locks <==> other in old(db.locks) && now < old(db.locks)[other].expiresAt)
                     && (other in db.locks ==> db.locks[other] == old(db.locks)[other])
      ensures !ok ==> db == old(db) && ledger == old(ledger)
      ensures ok ==>
                && db == old(db).(
                     locks := Unexpired(old(db.locks), now)[resource := LockRow(holder, now, now + ttlSeconds)])
                && ledger == Granted(old(ledger), resource, holder, now, ttlSeconds)
    {
      var kept := Unexpired(db.locks, now);
      ok := resource !in kept;
      if ok {
        GrantKeepsDisjoint(db.locks, ledger, clock, resource, holder, now, ttlSeconds);
        db := db.(locks := kept[resource := LockRow(holder, now, now + ttlSeconds)]);
        ledger := Granted(ledger, resource, holder, now, ttlSeconds);
      } else {
        LaterClock(db.locks, ledger, clock, now);
      }
      clock := now;
    }

    method ReleaseDeployLock(resource: string, holder: string, now: int) returns (ok: bool)
      requires Valid() && clock <= now
      modifies this`db, this`clock, this`ledger
      ensures Valid() && clock == now
      ensures ok <==> resource in old(db.locks) && old(db.locks)[resource].holder == holder
      ensures !ok ==> db == old(db) && ledger == old(ledger)
      ensures ok ==>
                && db == old(db).(locks := old(db.locks) - {resource})
                && ledger == Closed(old(ledger), resource, Min(now, old(db.locks)[resource].expiresAt), true)
    {
      ok := resource in db.locks && db.locks[resource].holder == holder;
      if ok {
        ReleaseKeepsDisjoint(db.locks, ledger, clock, resource, now);
        ledger := Closed(ledger, resource, Min(now, db.locks[resource].expiresAt), true);
        db := db.(locks := db.locks - {resource});
      } else {
        LaterClock(db.locks, ledger, clock, now);
      }
      clock := now;
    }

    method RequestDualApproval(
      resource: string, action: string, requester: string, primarySigner: string, secondarySigner: string,
      now: int, nonces: (string, string))
      returns (r: DualIssued)
      requires Valid() && nonces.0 !in db.approvals && nonces.1 !in db.approvals && nonces.0 != nonces.1
      modifies this`db
      ensures Valid() && db.locks == old(db.locks) && db.chain == old(db.chain)
      ensures r.Tokens? <==>
                && resource != "" && action != "" && {requester, primarySigner, secondarySigner} <= authorized.Keys
                && requester != primarySigner && primarySigner != secondarySigner && requester != secondarySigner
      ensures r.Tokens? ==>
                && r.tokens.requester == requester
                && r.tokens.primary.requester == primarySigner && r.tokens.secondary.requester == secondarySigner
                && Approved(sign, r.tokens, resource, action, now, db.approvals)
                && r.tokens.primary.nonce == nonces.0 && r.tokens.secondary.nonce == nonces.1
                && r.tokens.primary.expiresAt == r.tokens.secondary.expiresAt == now + 86400
                && db.approvals.Keys == old(db.approvals).Keys + {nonces.0, nonces.1}
                && forall n :: n in old(db.approvals) ==> db.approvals[n] == old(db.approvals)[n]
      ensures r == DualValueError <==> resource == "" || action == ""
      ensures !r.Tokens? ==> db == old(db)
    {
      if resource == "" || action == "" {
        return DualValueError;
      }
      if requester !in authorized || primarySigner !in authorized || secondarySigner !in authorized {
        return DualPermissionError;
      }
      if requester == primarySigner || primarySigner == secondarySigner || requester == secondarySigner {
        return DualPermissionError;
      }
      var primary := RequestApproval(resource, action, primarySigner, now, nonces.0);
      var secondary := RequestApproval(resource, action, secondarySigner, now, nonces.1);
      r := Tokens(DualApprovalToken(primary.token, secondary.token, requester));
    }

    method VerifyDualToken(d: DualApprovalToken, resource: string, action: string, now: int) returns (ok: bool)
      ensures ok <==>
                && ThreeDistinct(d)
                && Genuine(sign, d.primary, resource, action, now) && Genuine(sign, d.secondary, resource, action, now)
                && Unused(db.approvals, d.primary.nonce) && Unused(db.approvals, d.secondary.nonce)
      ensures ok ==>
                forall t :: t in [d.primary, d.secondary] ==>
                  && t.resource == resource && t.action == action && now < t.expiresAt
                  && t.signature == sign(t.requester, t.resource, t.action, t.issuedAt, t.expiresAt, t.nonce)
                  && t.nonce in db.approvals
                  && db.approvals[t.nonce].usedAt == None && db.approvals[t.nonce].revokedAt == None
      ensures ok ==> |{d.requester, d.primary.requester, d.secondary.requester}| == 3
    {
      ok := ThreeDistinct(d);
      if ok {
        ok := Genuine(sign, d.primary, resource, action, now) && Genuine(sign, d.secondary, resource, action, now);
      }
      if ok {
        ok := Unused(db.approvals, d.primary.nonce) && Unused(db.approvals, d.secondary.nonce);
      }
    }

    /**
     * One transaction: consume both tokens, take the lock, stage the audit row. `flushes` says whether the file
     * append after the commit succeeds; if it raises, the caller sees False although everything was committed.
     */
    method PreDeployAtomic(
      d: DualApprovalToken, resource: string, action: string, holder: string, now: int, auditNow: int, flushes: bool)
      returns (ok: bool)
      requires Valid() && clock <= now
      modifies this`db, this`clock, this`ledger, audit
      ensures Valid() && clock == now
      ensures var last := LastEntry(audit.encode, old(audit.entries));
              var e := DeployEntry(audit.hash, last, d, resource, action, auditNow);
              var commits := Commits(sign, old(db), d, resource, action, now, e);
              && ok == (commits && flushes)
              && db == (if commits then AfterDeploy(old(db), d, resource, holder, now, e) else old(db))
              && ledger == (if commits then Granted(old(ledger), resource, holder, now, TOKEN_TTL_SECONDS)
                   else old(ledger))
              && audit.entries == (if ok then old(audit.entries) + [e] else old(audit.entries))
      ensures ok || db != old(db) ==>
                && |{d.requester, d.primary.requester, d.secondary.requester}| == 3
                && forall t :: t in [d.primary, d.secondary] ==>
                     && t.resource == resource && t.action == action && now < t.expiresAt
                     && t.signature == sign(t.requester, t.resource, t.action, t.issuedAt, t.expiresAt, t.nonce)
                     && t.nonce in old(db.approvals) && t.nonce in db.approvals
                     && old(db.approvals)[t.nonce].usedAt == None && old(db.approvals)[t.nonce].revokedAt == None
                     && db.approvals[t.nonce].usedAt == Some(now)
      ensures ok || db != old(db) ==>
                && (resource in old(db.locks) ==> old(db.locks)[resource].expiresAt <= now)
                && resource in db.locks && db.locks[resource] == LockRow(holder, now, now + 86400)
    {
      ghost var before := clock;
      DeployIsSpelledOut(sign, db, d, resource, action, holder, now, audit, auditNow);
      var tx := db;
      clock := now;
      ok := false;
      LaterClock(db.locks, ledger, before, now);
      if !ThreeDistinct(d) {
        return;
      }
      var tokens := [d.primary, d.secondary];
      if !Genuine(sign, tokens[0], resource, action, now) || !Genuine(sign, tokens[1], resource, action, now) {
        return;
      }
      var i := 0;
      while i < 2
        invariant 0 <= i <= 2 && tx.locks == db.locks && tx.chain == db.chain
        invariant i >= 1 ==> Unused(db.approvals, d.primary.nonce)
        invariant i == 2 ==> Unused(db.approvals, d.secondary.nonce) && d.primary.nonce != d.secondary.nonce
        invariant i == 0 ==> tx.approvals == db.approvals
        invariant i == 1 ==> tx.approvals == MarkUsed(db.approvals, d.primary.nonce, now)
        invariant i == 2 ==>
                    tx.approvals == MarkUsed(MarkUsed(db.approvals, d.primary.nonce, now), d.secondary.nonce, now)
      {
        if !Unused(tx.approvals, tokens[i].nonce) {
          return;
        }
        tx := tx.(approvals := MarkUsed(tx.approvals, tokens[i].nonce, now));
        i := i + 1;
      }
      tx := tx.(locks := Unexpired(tx.locks, now));
      if resource in tx.locks {
        return;
      }
      tx := tx.(locks := tx.locks[resource := LockRow(holder, now, now + TOKEN_TTL_SECONDS)]);
      var last := LastEntry(audit.encode, audit.entries);
      var e := DeployEntry(audit.hash, last, d, resource, action, auditNow);
      if !Stages(tx.chain, e) {
        return;
      }
      tx := tx.(chain := tx.chain[e.content.blockIndex := e]);
      GrantKeepsDisjoint(db.locks, ledger, before, resource, holder, now, TOKEN_TTL_SECONDS);
      ledger := Granted(ledger, resource, holder, now, TOKEN_TTL_SECONDS);
      db := tx;
      if flushes {
        audit.FlushEntry(e);
        ok := true;
      }
    }
  }

  lemma DeployIsSpelledOut(
    sign: Signer, db: Database, d: DualApprovalToken, resource: string, action: string, holder: string, now: int,
    audit: AuditLog, auditNow: int)
    ensures var e := DeployEntry(audit.hash, LastEntry(audit.encode, audit.entries), d, resource, action, auditNow);
            Commits(sign, db, d, resource, action, now, e) ==>
              && |{d.requester, d.primary.requester, d.secondary.requester}| == 3
              && (forall t :: t in [d.primary, d.secondary] ==>
                    && t.resource == resource && t.action == action && now < t.expiresAt
                    && t.signature == sign(t.requester, t.resource, t.action, t.issuedAt, t.expiresAt, t.nonce)
                    && t.nonce in db.approvals
                    && db.approvals[t.nonce].usedAt == None && db.approvals[t.nonce].revokedAt == None
                    && var u := AfterDeploy(db, d, resource, holder, now, e);
                       t.nonce in u.approvals && u.approvals[t.nonce].usedAt == Some(now))
              && (resource in db.locks ==> db.locks[resource].expiresAt <= now)
              && var u := AfterDeploy(db, d, resource, holder, now, e);
                 resource in u.locks && u.locks[resource] == LockRow(holder, now, now + 86400)
  {
    var e := DeployEntry(audit.hash, LastEntry(audit.encode, audit.entries), d, resource, action, auditNow);
    if Commits(sign, db, d, resource, action, now, e) {
      CommitsMeans(sign, db, d, resource, action, now, e);
      AfterDeployMeans(db, d, resource, holder, now, e);
    }
  }

  /** A token is accepted exactly for the resource and action that it was issued for, once, within a day. */
  method IssueThenVerify(
    gate: ApprovalGate, resource: string, action: string, requester: string, issued: int, nonce: string,
    otherResource: string, otherAction: string, now: int)
    returns (accepted: bool, again: bool)
    requires gate.Valid() && nonce !in gate.db.approvals
    requires requester in gate.authorized && resource != "" && action != ""
    modifies gate
    ensures accepted <==> otherResource == resource && otherAction == action && now < issued + 24 * 60 * 60
    ensures accepted ==> !again
  {
    var issuedToken := gate.RequestApproval(resource, action, requester, issued, nonce);
    accepted := gate.VerifyToken(Some(issuedToken.token), otherResource, otherAction, now);
    again := gate.VerifyToken(Some(issuedToken.token), otherResource, otherAction, now);
  }

  lemma LaterClock(locks: Locks, ledger: seq<Tenure<string, int>>, clock: int, now: int)
    requires LocksMatchLedger(locks, ledger, clock) && clock <= now
    ensures LocksMatchLedger(locks, ledger, now)
  {
    forall resource | resource !in locks
      ensures AllEnded(ledger, resource, now)
    {
      assert AllEnded(ledger, resource, clock);
    }
    forall resource | resource in locks
      ensures IsLatestRow(locks[resource], ledger, resource, now)
    {
      assert IsLatestRow(locks[resource], ledger, resource, clock);
    }
  }
}
