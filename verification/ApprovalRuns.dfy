/** Several callers share the approvals table; their SELECT and UPDATE statements interleave. */
module ApprovalInterleavings {
  import opened Options
  import opened AuditLogs
  import opened ApprovalGates

  datatype Fact = Consumed(nonce: string) | Revoked(nonce: string)

  /** A caller of `verify_token` that has read an unused row and has not updated it yet. */
  datatype Selected = Selected(nonce: string, now: int)

  datatype Shared = Shared(db: Database, selected: map<int, Selected>, history: seq<Fact>)

  datatype Step =
    | Issue(nonce: string, row: ApprovalRow)
    | Select(caller: int, token: ApprovalToken, resource: string, action: string, now: int)
    | Update(caller: int)
    | Revoke(nonce: string, now: int)
    | PreDeploy(d: DualApprovalToken, resource: string, action: string, holder: string, now: int, entry: AuditEntry)

  /** A statement, or a whole transaction, that changes something. Refused ones change nothing and are left out. */
  ghost predicate Next(sign: Signer, s: Shared, step: Step, t: Shared)
  {
    match step
    case Issue(nonce, row) =>
      && nonce !in s.db.approvals && row.usedAt == None && row.revokedAt == None
      && t == s.(db := s.db.(approvals := s.db.approvals[nonce := row]))
    case Select(caller, token, resource, action, now) =>
      && Genuine(sign, token, resource, action, now) && Unused(s.db.approvals, token.nonce)
      && t == s.(selected := s.selected[caller := Selected(token.nonce, now)])
    case Update(caller) =>
      && caller in s.selected
      && var nonce := s.selected[caller].nonce;
      && var released := s.(selected := s.selected - {caller});
      && t == if Unused(s.db.approvals, nonce)
              then released.(
                   db := s.db.(approvals := MarkUsed(s.db.approvals, nonce, s.selected[caller].now)),
                   history := s.history + [Consumed(nonce)])
              else released
    case Revoke(nonce, now) =>
      && nonce in s.db.approvals && s.db.approvals[nonce].revokedAt == None
      && t == s.(
              db := s.db.(approvals := MarkRevoked(s.db.approvals, nonce, now)),
              history := s.history + [Revoked(nonce)])
    case PreDeploy(d, resource, action, holder, now, entry) =>
      && Commits(sign, s.db, d, resource, action, now, entry)
      && t == s.(
              db := AfterDeploy(s.db, d, resource, holder, now, entry),
              history := s.history + [Consumed(d.primary.nonce), Consumed(d.secondary.nonce)])
  }

  /** Every statement can happen: what the callers do is among the runs. */
  lemma StatementsHappen(
    sign: Signer, s: Shared, caller: int, token: ApprovalToken, resource: string, action: string, now: int,
    nonce: string, row: ApprovalRow)
    ensures nonce !in s.db.approvals && row.usedAt == None && row.revokedAt == None ==>
              Next(sign, s, Issue(nonce, row), s.(db := s.db.(approvals := s.db.approvals[nonce := row])))
    ensures Genuine(sign, token, resource, action, now) && Unused(s.db.approvals, token.nonce) ==>
              Next(
                sign, s, Select(caller, token, resource, action, now),
                s.(selected := s.selected[caller := Selected(token.nonce, now)]))
    ensures caller in s.selected && Unused(s.db.approvals, s.selected[caller].nonce) ==>
              var chosen := s.selected[caller];
              Next(
                sign, s, Update(caller),
                Shared(
                  s.db.(approvals := s.db.approvals[chosen.nonce :=
                          s.db.approvals[chosen.nonce].(usedAt := Some(chosen.now))]),
                  s.selected - {caller}, s.history + [Consumed(chosen.nonce)]))
    ensures caller in s.selected && !Unused(s.db.approvals, s.selected[caller].nonce) ==>
              Next(sign, s, Update(caller), s.(selected := s.selected - {caller}))
    ensures nonce in s.db.approvals && s.db.approvals[nonce].revokedAt == None ==>
              Next(
                sign, s, Revoke(nonce, now),
                s.(db := s.db.(approvals := s.db.approvals[nonce := s.db.approvals[nonce].(revokedAt := Some(now))]),
                   history := s.history + [Revoked(nonce)]))
  {
  }

  lemma DeploysHappen(
    sign: Signer, s: Shared, d: DualApprovalToken, resource: string, action: string, holder: string, now: int,
    entry: AuditEntry)
    requires Commits(sign, s.db, d, resource, action, now, entry)
    ensures Next(
              sign, s, PreDeploy(d, resource, action, holder, now, entry),
              Shared(
                AfterDeploy(s.db, d, resource, holder, now, entry), s.selected,
                s.history + [Consumed(d.primary.nonce), Consumed(d.secondary.nonce)]))
  {
  }

  ghost predicate IsRun(sign: Signer, states: seq<Shared>, steps: seq<Step>)
  {
    && |states| == |steps| + 1
    && states[0].db.approvals == map[] && states[0].selected == map[] && states[0].history == []
    && forall k :: 0 <= k < |steps| ==> Next(sign, states[k], steps[k], states[k + 1])
  }

  /** A nonce is consumed at most once, and not after its revocation. */
  ghost predicate SingleUse(history: seq<Fact>)
  {
    forall i, j :: 0 <= i < j < |history| && history[j].Consumed? ==> history[i].nonce != history[j].nonce
  }

  /** The marks in the table are exactly the facts so far. */
  ghost predicate Records(approvals: Approvals, history: seq<Fact>)
  {
    && (forall nonce :: Consumed(nonce) in history <==> nonce in approvals && approvals[nonce].usedAt.Some?)
    && (forall nonce :: Revoked(nonce) in history <==> nonce in approvals && approvals[nonce].revokedAt.Some?)
  }

  lemma UnusedHasNoFact(approvals: Approvals, history: seq<Fact>, nonce: string, i: nat)
    requires Records(approvals, history) && Unused(approvals, nonce) && i < |history|
    ensures history[i].nonce != nonce
  {
    match history[i]
    case Consumed(n) => assert Consumed(n) in history;
    case Revoked(n) => assert Revoked(n) in history;
  }

  lemma ConsumeKeeps(approvals: Approvals, history: seq<Fact>, nonce: string, now: int)
    requires SingleUse(history) && Records(approvals, history) && Unused(approvals, nonce)
    ensures SingleUse(history + [Consumed(nonce)])
    ensures Records(MarkUsed(approvals, nonce, now), history + [Consumed(nonce)])
  {
    forall i | 0 <= i < |history|
      ensures history[i].nonce != nonce
    {
      UnusedHasNoFact(approvals, history, nonce, i);
    }
  }

  lemma RevokeKeeps(approvals: Approvals, history: seq<Fact>, nonce: string, now: int)
    requires SingleUse(history) && Records(approvals, history)
    requires nonce in approvals && approvals[nonce].revokedAt == None
    ensures SingleUse(history + [Revoked(nonce)])
    ensures Records(MarkRevoked(approvals, nonce, now), history + [Revoked(nonce)])
  {
  }

  lemma NextKeepsSingleUse(sign: Signer, s: Shared, step: Step, t: Shared)
    requires SingleUse(s.history) && Records(s.db.approvals, s.history) && Next(sign, s, step, t)
    ensures SingleUse(t.history) && Records(t.db.approvals, t.history)
  {
    match step
    case Issue(nonce, row) =>
    case Select(_, _, _, _, _) =>
    case Update(caller) =>
      var selected := s.selected[caller];
      if Unused(s.db.approvals, selected.nonce) {
        ConsumeKeeps(s.db.approvals, s.history, selected.nonce, selected.now);
      }
    case Revoke(nonce, now) => RevokeKeeps(s.db.approvals, s.history, nonce, now);
    case PreDeploy(d, _, _, _, now, _) =>
      var p, q := d.primary.nonce, d.secondary.nonce;
      ConsumeKeeps(s.db.approvals, s.history, p, now);
      ConsumeKeeps(MarkUsed(s.db.approvals, p, now), s.history + [Consumed(p)], q, now);
      assert s.history + [Consumed(p)] + [Consumed(q)] == s.history + [Consumed(p), Consumed(q)];
  }

  lemma {:induction false} RunKeepsSingleUse(sign: Signer, states: seq<Shared>, steps: seq<Step>, k: nat)
    requires IsRun(sign, states, steps) && k <= |steps|
    ensures SingleUse(states[k].history) && Records(states[k].db.approvals, states[k].history)
  {
    if k > 0 {
      RunKeepsSingleUse(sign, states, steps, k - 1);
      NextKeepsSingleUse(sign, states[k - 1], steps[k - 1], states[k]);
    }
  }

  /** Over every interleaving, of two facts about one nonce the later one is never its consumption. */
  lemma TokensAreSingleUse(sign: Signer, states: seq<Shared>, steps: seq<Step>, i: nat, j: nat)
    requires IsRun(sign, states, steps)
    requires var history := states[|steps|].history;
             i < j < |history| && history[i].nonce == history[j].nonce
    ensures states[|steps|].history[i].Consumed? && states[|steps|].history[j].Revoked?
  {
    RunKeepsSingleUse(sign, states, steps, |steps|);
    RevokedOnce(sign, states, steps, |steps|);
  }

  lemma {:induction false} RevokedOnce(sign: Signer, states: seq<Shared>, steps: seq<Step>, k: nat)
    requires IsRun(sign, states, steps) && k <= |steps|
    ensures var h := states[k].history;
            forall i, j :: 0 <= i < j < |h| && h[i].Revoked? && h[j].Revoked? ==> h[i].nonce != h[j].nonce
  {
    if k > 0 {
      RevokedOnce(sign, states, steps, k - 1);
      RunKeepsSingleUse(sign, states, steps, k - 1);
      var s := states[k - 1];
      forall i | 0 <= i < |s.history| && s.history[i].Revoked?
        ensures Revoked(s.history[i].nonce) in s.history
      {
      }
    }
  }
}
