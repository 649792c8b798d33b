/** The audit_chain table and the JSONL file, in sequential runs without crashes. */
module AuditCoupling {
  import opened Options
  import opened AuditLogs
  import opened ApprovalGates

  datatype Stores = Stores(db: Database, entries: seq<AuditEntry>)

  datatype Step =
    | Append(action: string, resource: string, requester: string, nonce: string, now: int)
    | PreDeploy(d: DualApprovalToken, resource: string, action: string, holder: string, now: int, auditNow: int)
    | OtherTables(approvals: Approvals, locks: Locks)

  ghost predicate Next(sign: Signer, hash: Hasher, encode: Encoder, s: Stores, step: Step, t: Stores)
  {
    match step
    case Append(action, resource, requester, nonce, now) =>
      t == if AllPresent(action, resource, requester, nonce)
           then s.(entries := s.entries + [
                   NextEntry(hash, LastEntry(encode, s.entries), now, action, resource, requester, nonce)])
           else s
    case PreDeploy(d, resource, action, holder, now, auditNow) =>
      var e := DeployEntry(hash, LastEntry(encode, s.entries), d, resource, action, auditNow);
      t == if Commits(sign, s.db, d, resource, action, now, e)
           then Stores(AfterDeploy(s.db, d, resource, holder, now, e), s.entries + [e])
           else s
    case OtherTables(approvals, locks) => t == s.(db := s.db.(approvals := approvals, locks := locks))
  }

  ghost predicate IsRun(sign: Signer, hash: Hasher, encode: Encoder, states: seq<Stores>, steps: seq<Step>)
  {
    && |states| == |steps| + 1
    && states[0].db.chain == map[] && states[0].entries == []
    && forall k :: 0 <= k < |steps| ==> NextAt(sign, hash, encode, states, steps, k)
  }

  ghost predicate NextAt(
    sign: Signer, hash: Hasher, encode: Encoder, states: seq<Stores>, steps: seq<Step>, k: nat)
    requires k < |steps| < |states|
  {
    Next(sign, hash, encode, states[k], steps[k], states[k + 1])
  }

  /** The line of every entry before the last one fits in the tail read. */
  ghost predicate AllButLastFit(encode: Encoder, entries: seq<AuditEntry>)
  {
    forall i :: 0 <= i < |entries| - 1 ==> Fits(encode, entries[i])
  }

  predicate LastFits(encode: Encoder, entries: seq<AuditEntry>)
  {
    entries == [] || Fits(encode, entries[|entries| - 1])
  }

  /** Every row of the table is the block of the file with its index, and the file verifies. */
  ghost predicate InStep(hash: Hasher, s: Stores)
  {
    ValidChain(hash, s.entries) && forall i :: i in s.db.chain ==> 0 <= i < |s.entries| && s.db.chain[i] == s.entries[i]
  }

  lemma NextIndex(
    hash: Hasher, encode: Encoder, s: Stores,
    now: int, action: string, resource: string, requester: string, nonce: string)
    requires InStep(hash, s)
    ensures var e := NextEntry(hash, LastEntry(encode, s.entries), now, action, resource, requester, nonce);
            && e.content.blockIndex == (if LastFits(encode, s.entries) then |s.entries| else 0)
            && (ValidChain(hash, s.entries + [e]) <==> LastFits(encode, s.entries))
  {
    AppendKeepsChainIffLastLineFits(hash, encode, s.entries, now, action, resource, requester, nonce);
    if s.entries != [] {
      assert Linked(hash, s.entries, |s.entries| - 1);
    }
  }

  lemma NextKeepsInStep(sign: Signer, hash: Hasher, encode: Encoder, s: Stores, step: Step, t: Stores)
    requires InStep(hash, s) && Next(sign, hash, encode, s, step, t)
    requires LastFits(encode, s.entries) || t.entries == s.entries
    ensures InStep(hash, t)
  {
    match step
    case Append(action, resource, requester, nonce, now) =>
      NextIndex(hash, encode, s, now, action, resource, requester, nonce);
    case PreDeploy(d, resource, action, holder, now, auditNow) =>
      NextIndex(hash, encode, s, auditNow, "pre_deploy:" + action, resource, d.requester, PairNonce(d));
    case OtherTables(_, _) =>
  }

  /** After a line that does not fit, the numbering starts again. */
  ghost predicate RestartsAt(encode: Encoder, entries: seq<AuditEntry>, i: nat)
    requires 0 < i < |entries|
  {
    !Fits(encode, entries[i - 1]) ==> entries[i].content.blockIndex == 0
  }

  ghost predicate Restarts(encode: Encoder, entries: seq<AuditEntry>)
  {
    forall i :: 0 < i < |entries| ==> RestartsAt(encode, entries, i)
  }

  /** A step leaves the file as it is, or appends an entry numbered after the one that the tail read finds. */
  lemma NextKeepsRestarts(sign: Signer, hash: Hasher, encode: Encoder, s: Stores, step: Step, t: Stores)
    requires Restarts(encode, s.entries) && Next(sign, hash, encode, s, step, t)
    ensures Restarts(encode, t.entries) && s.entries <= t.entries && |t.entries| <= |s.entries| + 1
  {
    forall i | 0 < i < |t.entries|
      ensures RestartsAt(encode, t.entries, i)
    {
      assert i < |s.entries| ==> RestartsAt(encode, s.entries, i);
    }
  }

  lemma {:induction false} RunRestarts(
    sign: Signer, hash: Hasher, encode: Encoder, states: seq<Stores>, steps: seq<Step>, k: nat)
    requires IsRun(sign, hash, encode, states, steps) && k <= |steps|
    ensures Restarts(encode, states[k].entries)
  {
    if k > 0 {
      RunRestarts(sign, hash, encode, states, steps, k - 1);
      assert NextAt(sign, hash, encode, states, steps, k - 1);
      NextKeepsRestarts(sign, hash, encode, states[k - 1], steps[k - 1], states[k]);
    }
  }

  lemma RestartBreaksChain(hash: Hasher, encode: Encoder, entries: seq<AuditEntry>)
    requires Restarts(encode, entries) && !AllButLastFit(encode, entries)
    ensures !ValidChain(hash, entries)
  {
    var i :| 0 <= i < |entries| - 1 && !Fits(encode, entries[i]);
    assert RestartsAt(encode, entries, i + 1);
    assert !Linked(hash, entries, i + 1);
  }

  lemma FittingPrefix(encode: Encoder, before: seq<AuditEntry>, after: seq<AuditEntry>)
    requires before <= after && |after| <= |before| + 1 && AllButLastFit(encode, after)
    ensures AllButLastFit(encode, before) && (LastFits(encode, before) || after == before)
  {
    assert forall i :: 0 <= i < |before| ==> before[i] == after[i];
  }

  lemma FittingStep(
    sign: Signer, hash: Hasher, encode: Encoder, states: seq<Stores>, steps: seq<Step>, k: nat)
    requires k < |steps| < |states| && NextAt(sign, hash, encode, states, steps, k)
    requires Restarts(encode, states[k].entries) && AllButLastFit(encode, states[k + 1].entries)
    ensures AllButLastFit(encode, states[k].entries)
    ensures InStep(hash, states[k]) ==> InStep(hash, states[k + 1])
  {
    var s, t := states[k], states[k + 1];
    NextKeepsRestarts(sign, hash, encode, s, steps[k], t);
    FittingPrefix(encode, s.entries, t.entries);
    if InStep(hash, s) {
      NextKeepsInStep(sign, hash, encode, s, steps[k], t);
    }
  }

  lemma NothingIsInStep(hash: Hasher, s: Stores)
    requires s.db.chain == map[] && s.entries == []
    ensures InStep(hash, s)
  {
  }

  lemma {:induction false} FittingRunStaysInStep(
    sign: Signer, hash: Hasher, encode: Encoder, states: seq<Stores>, steps: seq<Step>, k: nat)
    requires IsRun(sign, hash, encode, states, steps) && k <= |steps|
    requires AllButLastFit(encode, states[k].entries)
    ensures InStep(hash, states[k])
  {
    if k == 0 {
      NothingIsInStep(hash, states[0]);
    } else {
      RunRestarts(sign, hash, encode, states, steps, k - 1);
      FittingStep(sign, hash, encode, states, steps, k - 1);
      FittingRunStaysInStep(sign, hash, encode, states, steps, k - 1);
    }
  }

  /**
   * In every run, table and file are in step exactly as long as every line before the last one fits in the tail
   * read. The file verifies exactly as long.
   */
  lemma StoresStayInStep(
    sign: Signer, hash: Hasher, encode: Encoder, states: seq<Stores>, steps: seq<Step>, k: nat)
    requires IsRun(sign, hash, encode, states, steps) && k <= |steps|
    ensures InStep(hash, states[k]) <==> AllButLastFit(encode, states[k].entries)
    ensures ValidChain(hash, states[k].entries) <==> AllButLastFit(encode, states[k].entries)
    ensures AllButLastFit(encode, states[k].entries) ==>
              forall i :: i in states[k].db.chain ==>
                0 <= i < |states[k].entries| && states[k].db.chain[i] == states[k].entries[i]
  {
    if AllButLastFit(encode, states[k].entries) {
      FittingRunStaysInStep(sign, hash, encode, states, steps, k);
    } else {
      RunRestarts(sign, hash, encode, states, steps, k);
      RestartBreaksChain(hash, encode, states[k].entries);
    }
  }

  /** While the stores are in step, the next index is free exactly if the last line fits or there is no row 0. */
  lemma IndexIsFreeIff(
    hash: Hasher, encode: Encoder, s: Stores,
    now: int, action: string, resource: string, requester: string, nonce: string)
    requires InStep(hash, s)
    ensures var e := NextEntry(hash, LastEntry(encode, s.entries), now, action, resource, requester, nonce);
            e.content.blockIndex !in s.db.chain <==> LastFits(encode, s.entries) || 0 !in s.db.chain
  {
    NextIndex(hash, encode, s, now, action, resource, requester, nonce);
  }

  /**
   * As long as every line before the last one fits, the insert clashes on its index only if the last line does not
   * fit and row 0 is there. Otherwise only the tokens, the lock and empty fields can refuse a deploy.
   */
  lemma InsertNeverClashes(
    sign: Signer, hash: Hasher, encode: Encoder, states: seq<Stores>, steps: seq<Step>, k: nat,
    d: DualApprovalToken, resource: string, action: string, now: int, auditNow: int)
    requires IsRun(sign, hash, encode, states, steps) && k <= |steps|
    requires AllButLastFit(encode, states[k].entries)
    ensures var s := states[k];
            var e := DeployEntry(hash, LastEntry(encode, s.entries), d, resource, action, auditNow);
            Commits(sign, s.db, d, resource, action, now, e) <==>
            && Approved(sign, d, resource, action, now, s.db.approvals)
            && resource !in Unexpired(s.db.locks, now)
            && resource != "" && d.requester != ""
            && (LastFits(encode, s.entries) || 0 !in s.db.chain)
  {
    StoresStayInStep(sign, hash, encode, states, steps, k);
    IndexIsFreeIff(hash, encode, states[k], auditNow, "pre_deploy:" + action, resource, d.requester, PairNonce(d));
  }

  /** While a line that does not fit is the last one and the table holds row 0, no deploy can commit. */
  lemma OversizedLineBlocksDeploys(
    sign: Signer, hash: Hasher, encode: Encoder, s: Stores,
    d: DualApprovalToken, resource: string, action: string, now: int, auditNow: int)
    requires s.entries != [] && !Fits(encode, s.entries[|s.entries| - 1]) && 0 in s.db.chain
    ensures var e := DeployEntry(hash, LastEntry(encode, s.entries), d, resource, action, auditNow);
            !Commits(sign, s.db, d, resource, action, now, e)
  {
  }

  // ---- how step is lost silently -----------------------------------------------------------------------

  /** Only the entries of the action "long" do not fit. */
  function LongOrShort(e: AuditEntry): string
  {
    if e.content.action == "long" then seq(5000, _ => 'x') else "x"
  }

  function Unsigned(): Signer
  {
    (requester, resource, action, issuedAt, expiresAt, nonce) => ""
  }

  function Pair(resource: string, first: string, second: string): DualApprovalToken
  {
    DualApprovalToken(
      ApprovalToken("p", resource, "go", 0, 100, first, ""),
      ApprovalToken("q", resource, "go", 0, 100, second, ""), "r")
  }

  function FourRows(): Approvals
  {
    var row := ApprovalRow("p", "A", "go", 0, 100, None, None);
    map["1" := row, "2" := row, "3" := row, "4" := row]
  }

  /** The deploy of one resource, for which both tokens are still unused. */
  lemma PairCommits(db: Database, resource: string, first: string, second: string, e: AuditEntry)
    requires Unused(db.approvals, first) && Unused(db.approvals, second) && first != second
    requires resource != "" && resource !in db.locks && e.content.blockIndex !in db.chain
    requires e.content.resource == resource && e.content.requester == "r"
    ensures Commits(Unsigned(), db, Pair(resource, first, second), resource, "go", 1, e)
  {
  }

  function FirstDeploy(hash: Hasher): AuditEntry
  {
    DeployEntry(hash, None, Pair("A", "1", "2"), "A", "go", 1)
  }

  function Big(hash: Hasher): AuditEntry
  {
    NextEntry(hash, Some(FirstDeploy(hash)), 1, "long", "A", "r", "n")
  }

  function Small(hash: Hasher): AuditEntry
  {
    NextEntry(hash, None, 1, "short", "A", "r", "n")
  }

  function SecondDeploy(hash: Hasher): AuditEntry
  {
    DeployEntry(hash, Some(Small(hash)), Pair("B", "3", "4"), "B", "go", 1)
  }

  lemma WhichLinesFit(hash: Hasher)
    ensures Fits(LongOrShort, FirstDeploy(hash)) && Fits(LongOrShort, Small(hash)) && !Fits(LongOrShort, Big(hash))
    ensures SecondDeploy(hash).content.blockIndex == 1 && SecondDeploy(hash) != Big(hash)
  {
    assert FirstDeploy(hash).content.action[0] == 'p' && SecondDeploy(hash).content.action[0] == 'p';
  }

  function AfterFirst(hash: Hasher): Database
  {
    AfterDeploy(Database(FourRows(), map[], map[]), Pair("A", "1", "2"), "A", "h", 1, FirstDeploy(hash))
  }

  function AfterSecond(hash: Hasher): Database
  {
    AfterDeploy(AfterFirst(hash), Pair("B", "3", "4"), "B", "h", 1, SecondDeploy(hash))
  }

  lemma SecondRow(hash: Hasher)
    ensures 1 in AfterSecond(hash).chain && AfterSecond(hash).chain[1] == SecondDeploy(hash)
  {
    WhichLinesFit(hash);
  }

  lemma IssuingHappens(hash: Hasher)
    ensures Next(
              Unsigned(), hash, LongOrShort, Stores(Database(map[], map[], map[]), []),
              OtherTables(FourRows(), map[]), Stores(Database(FourRows(), map[], map[]), []))
  {
  }

  lemma FirstDeployHappens(hash: Hasher)
    ensures Next(
              Unsigned(), hash, LongOrShort, Stores(Database(FourRows(), map[], map[]), []),
              PreDeploy(Pair("A", "1", "2"), "A", "go", "h", 1, 1), Stores(AfterFirst(hash), [FirstDeploy(hash)]))
  {
    PairCommits(Database(FourRows(), map[], map[]), "A", "1", "2", FirstDeploy(hash));
  }

  lemma AppendsHappen(hash: Hasher)
    ensures Next(
              Unsigned(), hash, LongOrShort, Stores(AfterFirst(hash), [FirstDeploy(hash)]),
              Append("long", "A", "r", "n", 1), Stores(AfterFirst(hash), [FirstDeploy(hash), Big(hash)]))
    ensures Next(
              Unsigned(), hash, LongOrShort, Stores(AfterFirst(hash), [FirstDeploy(hash), Big(hash)]),
              Append("short", "A", "r", "n", 1), Stores(AfterFirst(hash), [FirstDeploy(hash), Big(hash), Small(hash)]))
  {
    WhichLinesFit(hash);
  }

  lemma SecondDeployHappens(hash: Hasher)
    ensures var file := [FirstDeploy(hash), Big(hash), Small(hash)];
            Next(
              Unsigned(), hash, LongOrShort, Stores(AfterFirst(hash), file),
              PreDeploy(Pair("B", "3", "4"), "B", "go", "h", 1, 1),
              Stores(AfterSecond(hash), file + [SecondDeploy(hash)]))
  {
    WhichLinesFit(hash);
    PairCommits(AfterFirst(hash), "B", "3", "4", SecondDeploy(hash));
  }

  function LostStates(hash: Hasher): seq<Stores>
  {
    var e0, big, small, e1 := FirstDeploy(hash), Big(hash), Small(hash), SecondDeploy(hash);
    [ Stores(Database(map[], map[], map[]), []), Stores(Database(FourRows(), map[], map[]), []),
      Stores(AfterFirst(hash), [e0]), Stores(AfterFirst(hash), [e0, big]), Stores(AfterFirst(hash), [e0, big, small]),
      Stores(AfterSecond(hash), [e0, big, small] + [e1])]
  }

  function LostSteps(): seq<Step>
  {
    [ OtherTables(FourRows(), map[]), PreDeploy(Pair("A", "1", "2"), "A", "go", "h", 1, 1),
      Append("long", "A", "r", "n", 1), Append("short", "A", "r", "n", 1),
      PreDeploy(Pair("B", "3", "4"), "B", "go", "h", 1, 1)]
  }

  lemma LostStepHappens(hash: Hasher, k: nat)
    requires k < 5
    ensures NextAt(Unsigned(), hash, LongOrShort, LostStates(hash), LostSteps(), k)
  {
    if k == 0 {
      IssuingHappens(hash);
    } else if k == 1 {
      FirstDeployHappens(hash);
    } else if k == 4 {
      SecondDeployHappens(hash);
    } else {
      AppendsHappen(hash);
    }
  }

  /**
   * A deploy, an entry whose line does not fit, one whose line fits, and another deploy: the third entry is numbered
   * 0 again, so the last deploy commits with number 1. Row 1 of the table is then not block 1 of the file.
   */
  lemma StepIsLostSilently(hash: Hasher) returns (states: seq<Stores>, steps: seq<Step>)
    ensures IsRun(Unsigned(), hash, LongOrShort, states, steps) && |steps| == 5
    ensures steps[4].PreDeploy? && |states[5].entries| == |states[4].entries| + 1 == 4
    ensures 1 in states[5].db.chain && states[5].db.chain[1] == states[5].entries[3]
    ensures states[5].entries[1] != states[5].entries[3]
  {
    states, steps := LostStates(hash), LostSteps();
    WhichLinesFit(hash);
    SecondRow(hash);
    forall k | 0 <= k < |steps|
      ensures NextAt(Unsigned(), hash, LongOrShort, states, steps, k)
    {
      LostStepHappens(hash, k);
    }
  }
}
