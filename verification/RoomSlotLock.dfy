/** Room-slot allocation across booking channels, with an audit trail of every stored record. */
module RoomSlotLocks {
  import opened Options

  datatype SlotState = AVAILABLE | RESERVED | BOOKED | CONFLICT

  datatype RoomSlotKey = RoomSlotKey(hotelId: string, roomId: string, timeSlot: string)

  datatype LockRecord = LockRecord(
    key: RoomSlotKey, state: SlotState, holder: Option<string>, expiresAt: Option<real>,
    conflictingHolder: Option<string>, version: nat, updatedAt: real)

  type Records = map<RoomSlotKey, LockRecord>

  datatype Store = Store(records: Records, audit: seq<LockRecord>)

  function Stored(s: Store, r: LockRecord): Store
  {
    Store(s.records[r.key := r], s.audit + [r])
  }

  function Freed(r: LockRecord, now: real): LockRecord
  {
    r.(state := AVAILABLE, holder := None, expiresAt := None, conflictingHolder := None,
      version := r.version + 1, updatedAt := now)
  }

  predicate IsStale(r: LockRecord, now: real)
  {
    r.state == RESERVED && r.expiresAt.Some? && r.expiresAt.value <= now
  }

  /** The store after the expiry of `key` has been recorded, and the current record. */
  function Current(s: Store, key: RoomSlotKey, now: real): (Store, LockRecord)
  {
    if key !in s.records then (s, LockRecord(key, AVAILABLE, None, None, None, 0, now))
    else if IsStale(s.records[key], now) then
      var expired := Freed(s.records[key], now);
      (Stored(s, expired), expired)
    else (s, s.records[key])
  }

  /** The slot is free, or reserved by this channel. */
  predicate Takeable(current: LockRecord, channel: string)
  {
    && (current.state == AVAILABLE || current.state == RESERVED)
    && (current.holder == None || current.holder == Some(channel))
  }

  function Conflicted(current: LockRecord, channel: string, now: real): LockRecord
  {
    current.(state := CONFLICT, expiresAt := None, conflictingHolder := Some(channel),
      version := current.version + 1, updatedAt := now)
  }

  function Reserved(current: LockRecord, channel: string, ttl: real, now: real): LockRecord
  {
    current.(state := RESERVED, holder := Some(channel), expiresAt := Some(now + ttl), conflictingHolder := None,
      version := current.version + 1, updatedAt := now)
  }

  function Booked(current: LockRecord, channel: string, now: real): LockRecord
  {
    current.(state := BOOKED, holder := Some(channel), expiresAt := None, conflictingHolder := None,
      version := current.version + 1, updatedAt := now)
  }

  function AfterReserve(s: Store, key: RoomSlotKey, channel: string, ttl: real, now: real): (Store, LockRecord)
  {
    var (t, current) := Current(s, key, now);
    var r := if Takeable(current, channel) then Reserved(current, channel, ttl, now)
      else Conflicted(current, channel, now);
    (Stored(t, r), r)
  }

  function AfterBook(s: Store, key: RoomSlotKey, channel: string, now: real): (Store, LockRecord)
  {
    var (t, current) := Current(s, key, now);
    if Takeable(current, channel) then (Stored(t, Booked(current, channel, now)), Booked(current, channel, now))
    else if current.state == BOOKED && current.holder == Some(channel) then (t, current)
    else (Stored(t, Conflicted(current, channel, now)), Conflicted(current, channel, now))
  }

  function Swept(records: Records, now: real): Records
  {
    map key | key in records :: if IsStale(records[key], now) then Freed(records[key], now) else records[key]
  }

  datatype ReleaseOutcome = Done(record: LockRecord) | BookedSlot | NotTheHolder

  function AfterRelease(s: Store, key: RoomSlotKey, channel: string, now: real): (Store, ReleaseOutcome)
  {
    var (t, current) := Current(s, key, now);
    if current.state == AVAILABLE then (t, Done(current))
    else if current.state == BOOKED then (t, BookedSlot)
    else if current.holder != Some(channel) then (t, NotTheHolder)
    else (Stored(t, Freed(current, now)), Done(Freed(current, now)))
  }

  // ---- what the audit trail says ---------------------------------------------------------------------

  /** The record map that storing the trail from the start builds. */
  function Replay(audit: seq<LockRecord>): Records
  {
    if audit == [] then map[]
    else Replay(audit[..|audit| - 1])[audit[|audit| - 1].key := audit[|audit| - 1]]
  }

  /** Holder, expiry and rival fit the state. */
  ghost predicate Consistent(r: LockRecord)
  {
    match r.state
    case AVAILABLE => r.holder == None && r.expiresAt == None && r.conflictingHolder == None
    case RESERVED => r.holder.Some? && r.expiresAt.Some? && r.conflictingHolder == None
    case BOOKED => r.holder.Some? && r.expiresAt == None && r.conflictingHolder == None
    case CONFLICT => r.holder.Some? && r.expiresAt == None && r.conflictingHolder.Some?
  }

  /** `r` has the next version of its slot and does not hand the slot from one channel to another. */
  ghost predicate Continues(records: Records, r: LockRecord)
  {
    && Consistent(r)
    && r.version == (if r.key in records then records[r.key].version else 0) + 1
    && (r.key in records && records[r.key].holder.Some? && r.holder.Some? ==> r.holder == records[r.key].holder)
  }

  ghost predicate ContinuesAt(audit: seq<LockRecord>, i: nat)
    requires i < |audit|
  {
    Continues(Replay(audit[..i]), audit[i])
  }

  ghost predicate IsTrail(s: Store)
  {
    && s.records == Replay(s.audit)
    && (forall i :: 0 <= i < |s.audit| ==> ContinuesAt(s.audit, i))
    && (forall key :: key in s.records ==>
         s.records[key].key == key && Consistent(s.records[key]) && s.records[key].version >= 1)
  }

  lemma StoredIsTrail(s: Store, r: LockRecord)
    requires IsTrail(s) && Continues(s.records, r)
    ensures IsTrail(Stored(s, r))
  {
    var t := Stored(s, r);
    assert t.audit[..|s.audit|] == s.audit;
    forall i | 0 <= i < |t.audit|
      ensures ContinuesAt(t.audit, i)
    {
      if i < |s.audit| {
        assert t.audit[..i] == s.audit[..i];
        assert ContinuesAt(s.audit, i);
      }
    }
  }

  lemma CurrentIsTrail(s: Store, key: RoomSlotKey, now: real)
    requires IsTrail(s)
    ensures var (t, current) := Current(s, key, now);
            && IsTrail(t) && current.key == key && Consistent(current)
            && (if key in t.records then t.records[key] == current else current.version == 0)
  {
    if key in s.records && IsStale(s.records[key], now) {
      StoredIsTrail(s, Freed(s.records[key], now));
    }
  }

  /** Replacing the current record by its successor continues the trail. */
  lemma SuccessorIsTrail(t: Store, current: LockRecord, r: LockRecord)
    requires IsTrail(t)
    requires if current.key in t.records then t.records[current.key] == current else current.version == 0
    requires r.key == current.key && r.version == current.version + 1 && Consistent(r)
    requires current.holder.Some? && r.holder.Some? ==> r.holder == current.holder
    ensures IsTrail(Stored(t, r))
  {
    StoredIsTrail(t, r);
  }

  lemma ReserveKeepsTrail(s: Store, key: RoomSlotKey, channel: string, ttl: real, now: real)
    requires IsTrail(s)
    ensures IsTrail(AfterReserve(s, key, channel, ttl, now).0)
  {
    CurrentIsTrail(s, key, now);
    var (t, current) := Current(s, key, now);
    SuccessorIsTrail(t, current,
                     if Takeable(current, channel) then Reserved(current, channel, ttl, now)
                       else Conflicted(current, channel, now));
  }

  lemma BookKeepsTrail(s: Store, key: RoomSlotKey, channel: string, now: real)
    requires IsTrail(s)
    ensures IsTrail(AfterBook(s, key, channel, now).0)
  {
    CurrentIsTrail(s, key, now);
    var (t, current) := Current(s, key, now);
    SuccessorIsTrail(t, current,
                     if Takeable(current, channel) then Booked(current, channel, now)
                       else Conflicted(current, channel, now));
  }

  lemma ReleaseKeepsTrail(s: Store, key: RoomSlotKey, channel: string, now: real)
    requires IsTrail(s)
    ensures IsTrail(AfterRelease(s, key, channel, now).0)
  {
    CurrentIsTrail(s, key, now);
    var (t, current) := Current(s, key, now);
    SuccessorIsTrail(t, current, Freed(current, now));
  }

  // ---- the operations, case by case ----------------------------------------------------------------------

  /** Nobody has the slot: it was never taken, was freed, or its reservation has expired. */
  predicate IsOpen(s: Store, key: RoomSlotKey, now: real)
  {
    key !in s.records || s.records[key].state == AVAILABLE
    || (s.records[key].state == RESERVED && s.records[key].expiresAt.Some? && s.records[key].expiresAt.value <= now)
  }

  /** The channel has a reservation that still runs. */
  predicate HasReserved(s: Store, key: RoomSlotKey, channel: string, now: real)
  {
    && key in s.records && s.records[key].state == RESERVED && s.records[key].holder == Some(channel)
    && s.records[key].expiresAt.Some? && now < s.records[key].expiresAt.value
  }

  /** The version that the slot has once an expired reservation has been recorded. */
  function VersionNow(s: Store, key: RoomSlotKey, now: real): nat
  {
    if key !in s.records then 0
    else if IsOpen(s, key, now) && s.records[key].state == RESERVED then s.records[key].version + 1
    else s.records[key].version
  }

  /** An open slot, or the channel's own reservation, is reserved until `ttl` from now; anything else is a conflict. */
  lemma ReserveMeans(s: Store, key: RoomSlotKey, channel: string, ttl: real, now: real)
    requires IsTrail(s)
    ensures var (t, r) := AfterReserve(s, key, channel, ttl, now);
            && t.records == s.records[key := r]
            && r.key == key && r.updatedAt == now && r.version == VersionNow(s, key, now) + 1
            && (r.state == RESERVED || r.state == CONFLICT)
            && (r.state == RESERVED <==> IsOpen(s, key, now) || HasReserved(s, key, channel, now))
            && (r.state == RESERVED ==>
                  r.holder == Some(channel) && r.expiresAt == Some(now + ttl) && r.conflictingHolder == None)
            && (r.state == CONFLICT ==>
                  key in s.records && r.holder == s.records[key].holder && r.expiresAt == None
                  && r.conflictingHolder == Some(channel))
  {
    if key in s.records {
      ConsistentSlot(s, key);
    }
  }

  lemma BookMeans(s: Store, key: RoomSlotKey, channel: string, now: real)
    requires IsTrail(s)
    ensures var (t, r) := AfterBook(s, key, channel, now);
            var again := key in s.records && s.records[key].state == BOOKED && s.records[key].holder == Some(channel);
            && (again ==> t == s && r == s.records[key])
            && (!again ==>
                  && t.records == s.records[key := r]
                  && r.key == key && r.updatedAt == now && r.version == VersionNow(s, key, now) + 1
                  && (r.state == BOOKED || r.state == CONFLICT) && r.expiresAt == None
                  && (r.state == BOOKED <==> IsOpen(s, key, now) || HasReserved(s, key, channel, now))
                  && (r.state == BOOKED ==> r.holder == Some(channel) && r.conflictingHolder == None)
                  && (r.state == CONFLICT ==>
                        key in s.records && r.holder == s.records[key].holder && r.conflictingHolder == Some(channel)))
  {
    if key in s.records {
      ConsistentSlot(s, key);
    }
  }

  /** Only the holder of a running reservation or of a conflict frees the slot. */
  lemma ReleaseMeans(s: Store, key: RoomSlotKey, channel: string, now: real)
    requires IsTrail(s)
    ensures var (t, r) := AfterRelease(s, key, channel, now);
            var frees := HasReserved(s, key, channel, now)
                         || (key in s.records && s.records[key].state == CONFLICT
                             && s.records[key].holder == Some(channel));
            && (r.Done? <==> IsOpen(s, key, now) || frees)
            && (r.BookedSlot? <==> key in s.records && s.records[key].state == BOOKED)
            && (r.Done? ==> r.record.state == AVAILABLE && r.record.holder == None && r.record.key == key)
            && (frees ==>
                  && t.records == s.records[key := r.record] && r.record.updatedAt == now
                  && r.record.version == s.records[key].version + 1)
            && (!frees && !IsOpen(s, key, now) ==> t == s)
  {
    if key in s.records {
      ConsistentSlot(s, key);
    }
  }

  lemma ConsistentSlot(s: Store, key: RoomSlotKey)
    requires IsTrail(s) && key in s.records
    ensures Consistent(s.records[key]) && s.records[key].key == key
  {
  }

  class HeyLouDistributedLock {
    const defaultTtl: real
    var records: Records
    var audit: seq<LockRecord>

    ghost predicate Valid()
      reads this
    {
      IsTrail(Store(records, audit))
    }

    constructor (defaultTtl: real)
      requires defaultTtl > 0.0
      ensures Valid() && this.defaultTtl == defaultTtl && records == map[] && audit == []
    {
      this.defaultTtl := defaultTtl;
      records := map[];
      audit := [];
    }

    method StoreRecord(r: LockRecord)
      modifies this
      ensures Store(records, audit) == Stored(old(Store(records, audit)), r)
    {
      records := records[r.key := r];
      audit := audit + [r];
    }

    method CurrentRecord(key: RoomSlotKey, now: real) returns (current: LockRecord)
      modifies this
      ensures (Store(records, audit), current) == Current(old(Store(records, audit)), key, now)
      ensures Next(old(Store(records, audit)), Timed(Look(key), now), Store(records, audit))
    {
      if key !in records {
        return LockRecord(key, AVAILABLE, None, None, None, 0, now);
      }
      current := records[key];
      if IsStale(current, now) {
        current := Freed(current, now);
        StoreRecord(current);
      }
    }

    method Reserve(key: RoomSlotKey, channel: string, ttl: Option<real>, now: real) returns (r: LockRecord)
      requires Valid() && (ttl.Some? ==> ttl.value > 0.0)
      modifies this
      ensures Valid()
      ensures (Store(records, audit), r) ==
              AfterReserve(old(Store(records, audit)), key, channel, if ttl.Some? then ttl.value else defaultTtl, now)
      ensures Next(
                old(Store(records, audit)),
                Timed(Op.Reserve(key, channel, if ttl.Some? then ttl.value else defaultTtl), now),
                Store(records, audit))
      ensures r.state == RESERVED ==> Is(Store(records, audit), key, RESERVED, channel)
      ensures r.state == RESERVED ==>
                r.holder == Some(channel) && r.expiresAt == Some(now + if ttl.Some? then ttl.value else defaultTtl)
    {
      var duration := if ttl.Some? then ttl.value else defaultTtl;
      ReserveKeepsTrail(Store(records, audit), key, channel, duration, now);
      ReserveMeans(Store(records, audit), key, channel, duration, now);
      var current := CurrentRecord(key, now);
      r := if Takeable(current, channel) then Reserved(current, channel, duration, now)
        else Conflicted(current, channel, now);
      StoreRecord(r);
    }

    method Book(key: RoomSlotKey, channel: string, now: real) returns (r: LockRecord)
      requires Valid()
      modifies this
      ensures Valid()
      ensures (Store(records, audit), r) == AfterBook(old(Store(records, audit)), key, channel, now)
      ensures Next(old(Store(records, audit)), Timed(Op.Book(key, channel), now), Store(records, audit))
      ensures r.state == BOOKED ==> r.holder == Some(channel) && Is(Store(records, audit), key, BOOKED, channel)
      ensures r.state == CONFLICT ==>
                r.holder.Some? && Is(Store(records, audit), key, CONFLICT, r.holder.value)
    {
      BookKeepsTrail(Store(records, audit), key, channel, now);
      BookMeans(Store(records, audit), key, channel, now);
      var current := CurrentRecord(key, now);
      if !Takeable(current, channel) && current.state == BOOKED && current.holder == Some(channel) {
        return current;
      }
      r := if Takeable(current, channel) then Booked(current, channel, now) else Conflicted(current, channel, now);
      StoreRecord(r);
    }

    method Release(key: RoomSlotKey, channel: string, now: real) returns (r: ReleaseOutcome)
      requires Valid()
      modifies this
      ensures Valid()
      ensures (Store(records, audit), r) == AfterRelease(old(Store(records, audit)), key, channel, now)
      ensures Next(old(Store(records, audit)), Timed(Op.Release(key, channel), now), Store(records, audit))
    {
      ReleaseKeepsTrail(Store(records, audit), key, channel, now);
      var current := CurrentRecord(key, now);
      if current.state == AVAILABLE {
        return Done(current);
      }
      if current.state == BOOKED {
        return BookedSlot;
      }
      if current.holder != Some(channel) {
        return NotTheHolder;
      }
      var freed := Freed(current, now);
      StoreRecord(freed);
      r := Done(freed);
    }

    /** Expires every stale reservation; the trail grows by one record for each. */
    method SweepExpired(now: real) returns (expired: nat)
      requires Valid()
      modifies this
      ensures Valid()
      ensures records == Swept(old(records), now)
      ensures old(audit) <= audit && |audit| == |old(audit)| + expired
      ensures Next(old(Store(records, audit)), Timed(Sweep, now), Store(records, audit))
    {
      expired := 0;
      var rest := records.Keys;
      while rest != {}
        invariant Valid() && rest <= records.Keys && records.Keys == old(records).Keys
        invariant forall key :: key in rest ==> records[key] == old(records)[key]
        invariant forall key :: key in records && key !in rest ==>
                    records[key] ==
                    if IsStale(old(records)[key], now) then Freed(old(records)[key], now) else old(records)[key]
        invariant old(audit) <= audit && |audit| == |old(audit)| + expired
      {
        var key :| key in rest;
        if IsStale(records[key], now) {
          StoredIsTrail(Store(records, audit), Freed(records[key], now));
          StoreRecord(Freed(records[key], now));
          expired := expired + 1;
        }
        rest := rest - {key};
      }
    }
  }

  // ---- consequences ------------------------------------------------------------------------------------

  /** The records of one slot, in the order of the trail. */
  function OfSlot(audit: seq<LockRecord>, key: RoomSlotKey): seq<LockRecord>
  {
    if audit == [] then [] else
      OfSlot(audit[..|audit| - 1], key) + (if audit[|audit| - 1].key == key then [audit[|audit| - 1]] else [])
  }

  ghost predicate AllContinue(audit: seq<LockRecord>)
  {
    forall i :: 0 <= i < |audit| ==> ContinuesAt(audit, i)
  }

  lemma PrefixContinues(audit: seq<LockRecord>, n: nat)
    requires AllContinue(audit) && n <= |audit|
    ensures AllContinue(audit[..n])
  {
    forall i | 0 <= i < n
      ensures ContinuesAt(audit[..n], i)
    {
      assert audit[..n][..i] == audit[..i];
      assert ContinuesAt(audit, i);
    }
  }

  lemma {:induction false} LastOfSlot(audit: seq<LockRecord>, key: RoomSlotKey)
    ensures key in Replay(audit) <==> OfSlot(audit, key) != []
    ensures key in Replay(audit) ==> Replay(audit)[key] == OfSlot(audit, key)[|OfSlot(audit, key)| - 1]
    decreases |audit|
  {
    if audit != [] {
      LastOfSlot(audit[..|audit| - 1], key);
    }
  }

  /**
   * Per slot the trail carries the versions 1, 2, 3, ... without gaps, and two neighbouring records name the same
   * holder unless one of them is AVAILABLE.
   */
  lemma {:induction false} SlotHistory(audit: seq<LockRecord>, key: RoomSlotKey, j: nat)
    requires AllContinue(audit) && j < |OfSlot(audit, key)|
    ensures OfSlot(audit, key)[j].version == j + 1 && Consistent(OfSlot(audit, key)[j])
    ensures j > 0 ==>
              || OfSlot(audit, key)[j - 1].state == AVAILABLE || OfSlot(audit, key)[j].state == AVAILABLE
              || OfSlot(audit, key)[j - 1].holder == OfSlot(audit, key)[j].holder
    decreases |audit|
  {
    var n := |audit| - 1;
    var before := audit[..n];
    PrefixContinues(audit, n);
    assert ContinuesAt(audit, n);
    LastOfSlot(before, key);
    if j < |OfSlot(before, key)| {
      SlotHistory(before, key, j);
    } else if j > 0 {
      SlotHistory(before, key, j - 1);
    }
  }

  /** The slot never passes from one channel to another without an AVAILABLE record in between. */
  lemma {:induction false} HolderChangesOnlyThroughAvailable(audit: seq<LockRecord>, key: RoomSlotKey, i: nat, j: nat)
    requires AllContinue(audit) && i <= j < |OfSlot(audit, key)|
    requires forall m :: i <= m <= j ==> OfSlot(audit, key)[m].state != AVAILABLE
    ensures OfSlot(audit, key)[i].holder == OfSlot(audit, key)[j].holder
    decreases j
  {
    if i < j {
      HolderChangesOnlyThroughAvailable(audit, key, i, j - 1);
      SlotHistory(audit, key, j);
    }
  }

  // ---- runs --------------------------------------------------------------------------------------------

  datatype Op =
    | Reserve(key: RoomSlotKey, channel: string, ttl: real)
    | Book(key: RoomSlotKey, channel: string)
    | Release(key: RoomSlotKey, channel: string)
    | Look(key: RoomSlotKey)
    | Sweep

  datatype Timed = Timed(op: Op, now: real)

  /** A sweep records the expired reservations in an order of its own. */
  ghost predicate Next(s: Store, t: Timed, after: Store)
  {
    match t.op
    case Reserve(key, channel, ttl) => after == AfterReserve(s, key, channel, ttl, t.now).0
    case Book(key, channel) => after == AfterBook(s, key, channel, t.now).0
    case Release(key, channel) => after == AfterRelease(s, key, channel, t.now).0
    case Look(key) => after == Current(s, key, t.now).0
    case Sweep => IsTrail(after) && s.audit <= after.audit && after.records == Swept(s.records, t.now)
  }

  ghost predicate NextAt(stores: seq<Store>, ops: seq<Timed>, i: nat)
    requires i < |ops| < |stores|
  {
    Next(stores[i], ops[i], stores[i + 1])
  }

  /** A run that continues any reachable store. */
  ghost predicate IsRun(stores: seq<Store>, ops: seq<Timed>)
  {
    |stores| == |ops| + 1 && IsTrail(stores[0]) && forall i :: 0 <= i < |ops| ==> NextAt(stores, ops, i)
  }

  lemma NextIsTrail(s: Store, t: Timed, after: Store)
    requires IsTrail(s) && Next(s, t, after)
    ensures IsTrail(after)
  {
    match t.op
    case Reserve(key, channel, ttl) => ReserveKeepsTrail(s, key, channel, ttl, t.now);
    case Book(key, channel) => BookKeepsTrail(s, key, channel, t.now);
    case Release(key, channel) => ReleaseKeepsTrail(s, key, channel, t.now);
    case Look(key) => CurrentIsTrail(s, key, t.now);
    case Sweep =>
  }

  lemma {:induction false} RunIsTrail(stores: seq<Store>, ops: seq<Timed>, n: nat)
    requires IsRun(stores, ops) && n <= |ops|
    ensures IsTrail(stores[n])
  {
    if n > 0 {
      RunIsTrail(stores, ops, n - 1);
      assert NextAt(stores, ops, n - 1);
      NextIsTrail(stores[n - 1], ops[n - 1], stores[n]);
    }
  }

  /** The slot is in this state, under this channel. */
  predicate Is(s: Store, key: RoomSlotKey, state: SlotState, channel: string)
  {
    key in s.records && s.records[key].state == state && s.records[key].holder == Some(channel)
  }

  /** Another channel tries to get the slot. */
  predicate IsRivalry(op: Op, key: RoomSlotKey, channel: string)
  {
    (op.Reserve? || op.Book?) && op.key == key && op.channel != channel
  }

  ghost predicate NoneIn(ops: seq<Timed>, n: nat, bad: Op -> bool)
    requires n <= |ops|
  {
    forall i :: 0 <= i < n ==> !bad(ops[i].op)
  }

  /** What ends a conflict: its holder releases the slot. */
  function Settles(key: RoomSlotKey, channel: string): Op -> bool
  {
    (op: Op) => op == Release(key, channel)
  }

  /** What ends a booking: a reserve by anyone, or a booking by another channel. */
  function Unbooks(key: RoomSlotKey, channel: string): Op -> bool
  {
    (op: Op) => (op.Reserve? && op.key == key) || IsRivalry(op, key, channel)
  }

  /** The holder's own booking or release, which ends its reservation by design. */
  function EndsByDesign(key: RoomSlotKey, channel: string): Op -> bool
  {
    (op: Op) => op == Book(key, channel) || op == Release(key, channel)
  }

  function Rivals(key: RoomSlotKey, channel: string): Op -> bool
  {
    (op: Op) => IsRivalry(op, key, channel)
  }

  ghost predicate Throughout(stores: seq<Store>, n: nat, key: RoomSlotKey, state: SlotState, channel: string)
    requires n < |stores|
  {
    forall i :: 0 <= i <= n ==> Is(stores[i], key, state, channel)
  }

  lemma ConflictStepIff(s: Store, t: Timed, after: Store, key: RoomSlotKey, channel: string)
    requires IsTrail(s) && Next(s, t, after) && Is(s, key, CONFLICT, channel)
    ensures Is(after, key, CONFLICT, channel) <==> t.op != Release(key, channel)
  {
  }

  /**
   * What each operation does to a booked slot: a reserve makes it a conflict, and a release is refused without a
   * change.
   */
  lemma BookedSurvivesIff(s: Store, t: Timed, after: Store, key: RoomSlotKey, channel: string)
    requires IsTrail(s) && Next(s, t, after) && Is(s, key, BOOKED, channel)
    ensures Is(after, key, BOOKED, channel) <==> !Unbooks(key, channel)(t.op)
    ensures Is(after, key, CONFLICT, channel) <==> Unbooks(key, channel)(t.op)
    ensures t.op.Release? && t.op.key == key ==> AfterRelease(s, key, t.op.channel, t.now) == (s, BookedSlot)
  {
  }

  /**
   * Over every run a conflict lasts exactly until its holder releases the slot: no reserve, no booking, not even
   * the holder's own, and no passing of time ends it.
   */
  lemma {:induction false} ConflictLastsIffNotReleased(
    stores: seq<Store>, ops: seq<Timed>, n: nat, key: RoomSlotKey, channel: string)
    requires IsRun(stores, ops) && n <= |ops| && Is(stores[0], key, CONFLICT, channel)
    ensures Throughout(stores, n, key, CONFLICT, channel) <==> NoneIn(ops, n, Settles(key, channel))
  {
    if n > 0 {
      ConflictLastsIffNotReleased(stores, ops, n - 1, key, channel);
      RunIsTrail(stores, ops, n - 1);
      assert NextAt(stores, ops, n - 1);
      if Is(stores[n - 1], key, CONFLICT, channel) {
        ConflictStepIff(stores[n - 1], ops[n - 1], stores[n], key, channel);
      }
    }
  }

  /**
   * A booked slot is not terminal. Over every run it stays booked by its holder exactly if nobody, its holder
   * included, reserves it, and no other channel books it.
   */
  lemma {:induction false} BookedLastsIffUncontested(
    stores: seq<Store>, ops: seq<Timed>, n: nat, key: RoomSlotKey, channel: string)
    requires IsRun(stores, ops) && n <= |ops| && Is(stores[0], key, BOOKED, channel)
    ensures Throughout(stores, n, key, BOOKED, channel) <==> NoneIn(ops, n, Unbooks(key, channel))
  {
    if n > 0 {
      BookedLastsIffUncontested(stores, ops, n - 1, key, channel);
      RunIsTrail(stores, ops, n - 1);
      assert NextAt(stores, ops, n - 1);
      if Is(stores[n - 1], key, BOOKED, channel) {
        BookedSurvivesIff(stores[n - 1], ops[n - 1], stores[n], key, channel);
      }
    }
  }

  /** The slot is reserved and the operation comes before the reservation expires, or the slot is not reserved. */
  predicate BeforeExpiry(s: Store, key: RoomSlotKey, now: real)
  {
    key in s.records ==> !IsStale(s.records[key], now)
  }

  ghost predicate AllBeforeExpiry(stores: seq<Store>, ops: seq<Timed>, n: nat, key: RoomSlotKey)
    requires n <= |ops| < |stores|
  {
    forall i :: 0 <= i < n ==> BeforeExpiry(stores[i], key, ops[i].now)
  }

  lemma ReservedStep(s: Store, t: Timed, after: Store, key: RoomSlotKey, channel: string)
    requires IsTrail(s) && Next(s, t, after) && Is(s, key, RESERVED, channel) && BeforeExpiry(s, key, t.now)
    requires !EndsByDesign(key, channel)(t.op)
    ensures if IsRivalry(t.op, key, channel) then Is(after, key, CONFLICT, channel)
            else Is(after, key, RESERVED, channel)
  {
  }

  /** Until it expires, a reservation that its holder neither books nor releases lasts, or is in conflict for good. */
  lemma {:induction false} ReservedOrConflict(
    stores: seq<Store>, ops: seq<Timed>, n: nat, key: RoomSlotKey, channel: string)
    requires IsRun(stores, ops) && n <= |ops| && Is(stores[0], key, RESERVED, channel)
    requires AllBeforeExpiry(stores, ops, n, key) && NoneIn(ops, n, EndsByDesign(key, channel))
    ensures NoneIn(ops, n, Rivals(key, channel)) ==> Is(stores[n], key, RESERVED, channel)
    ensures !NoneIn(ops, n, Rivals(key, channel)) ==> Is(stores[n], key, CONFLICT, channel)
  {
    if n > 0 {
      ReservedOrConflict(stores, ops, n - 1, key, channel);
      RunIsTrail(stores, ops, n - 1);
      assert NextAt(stores, ops, n - 1);
      assert BeforeExpiry(stores[n - 1], key, ops[n - 1].now);
      if NoneIn(ops, n - 1, Rivals(key, channel)) {
        ReservedStep(stores[n - 1], ops[n - 1], stores[n], key, channel);
      } else {
        ConflictStepIff(stores[n - 1], ops[n - 1], stores[n], key, channel);
      }
    }
  }

  /**
   * Over every run that stays before the expiry, the holder of a reservation can still book it exactly if no other
   * channel has tried to reserve or book the slot in between. If one has, the holder's booking is itself recorded
   * as a conflict with the holder, whenever it comes. If none has, a rival gets the slot exactly from the expiry on.
   */
  lemma ReservationIsBookableIffUnrivalled(
    stores: seq<Store>, ops: seq<Timed>, n: nat, key: RoomSlotKey, channel: string,
    now: real, rival: string, rivalTtl: real)
    requires IsRun(stores, ops) && n <= |ops| && Is(stores[0], key, RESERVED, channel) && rival != channel
    requires AllBeforeExpiry(stores, ops, n, key) && NoneIn(ops, n, EndsByDesign(key, channel))
    ensures var unrivalled := NoneIn(ops, n, Rivals(key, channel));
            var (after, booked) := AfterBook(stores[n], key, channel, now);
            var attempt := AfterReserve(stores[n], key, rival, rivalTtl, now).1;
            && (booked.state == BOOKED <==> unrivalled)
            && (!unrivalled ==> booked.state == CONFLICT && booked.holder == booked.conflictingHolder == Some(channel))
            && (unrivalled ==>
                  if BeforeExpiry(stores[n], key, now)
                  then attempt.state == CONFLICT && attempt.holder == Some(channel)
                  else attempt.state == RESERVED && attempt.holder == Some(rival))
  {
    ReservedOrConflict(stores, ops, n, key, channel);
  }

  /** While nobody else acts on a reservation made at `since`, it stands until `ttl` later, and is gone afterwards. */
  lemma {:induction false} UntouchedReservation(
    stores: seq<Store>, ops: seq<Timed>, n: nat, key: RoomSlotKey, channel: string, ttl: real, since: real, now: real)
    requires IsRun(stores, ops) && 1 <= n <= |ops| && ops[0] == Timed(Reserve(key, channel, ttl), since)
    requires Is(stores[1], key, RESERVED, channel)
    requires NoneFrom(ops, 1, n, Touches(key, channel)) && forall i :: 1 <= i < n ==> ops[i].now <= now
    ensures key in stores[n].records
    ensures
      || (Is(stores[n], key, RESERVED, channel) && stores[n].records[key].expiresAt == Some(since + ttl))
      || (stores[n].records[key].state == AVAILABLE && since + ttl <= now)
  {
    RunIsTrail(stores, ops, n - 1);
    assert NextAt(stores, ops, n - 1);
    if n == 1 {
      ReserveMeans(stores[0], key, channel, ttl, since);
    } else {
      UntouchedReservation(stores, ops, n - 1, key, channel, ttl, since, now);
      UntouchedStep(stores[n - 1], ops[n - 1], stores[n], key, channel);
    }
  }

  ghost predicate NoneFrom(ops: seq<Timed>, m: nat, n: nat, bad: Op -> bool)
    requires n <= |ops|
  {
    forall i :: m <= i < n ==> !bad(ops[i].op)
  }

  /** A reserve or booking by anyone, or a release by the holder. */
  function Touches(key: RoomSlotKey, channel: string): Op -> bool
  {
    (op: Op) => ((op.Reserve? || op.Book?) && op.key == key) || op == Release(key, channel)
  }

  lemma UntouchedStep(s: Store, t: Timed, after: Store, key: RoomSlotKey, channel: string)
    requires IsTrail(s) && Next(s, t, after) && !Touches(key, channel)(t.op) && key in s.records
    ensures key in after.records
    ensures Is(s, key, RESERVED, channel) ==>
              || after.records[key] == s.records[key]
              || (after.records[key].state == AVAILABLE && s.records[key].expiresAt.Some?
                  && s.records[key].expiresAt.value <= t.now)
    ensures s.records[key].state == AVAILABLE ==> after.records[key] == s.records[key]
  {
  }

  /**
   * Over every run: a reservation made at `since` for `ttl` that nobody touches turns a rival away exactly until
   * `since + ttl`, whatever is looked at, swept or done to other slots in between.
   */
  lemma ReservationLastsItsTime(
    stores: seq<Store>, ops: seq<Timed>, n: nat, key: RoomSlotKey, channel: string, ttl: real, since: real,
    rival: string, rivalTtl: real, now: real)
    requires IsRun(stores, ops) && 1 <= n <= |ops| && ops[0] == Timed(Reserve(key, channel, ttl), since)
    requires Is(stores[1], key, RESERVED, channel) && rival != channel
    requires NoneFrom(ops, 1, n, Touches(key, channel)) && forall i :: 1 <= i < n ==> ops[i].now <= now
    ensures var r := AfterReserve(stores[n], key, rival, rivalTtl, now).1;
            && (r.state == CONFLICT <==> now < since + ttl)
            && (r.state == CONFLICT ==> r.holder == Some(channel) && r.conflictingHolder == Some(rival))
            && (r.state != CONFLICT ==> r.state == RESERVED && r.holder == Some(rival))
  {
    RunIsTrail(stores, ops, n);
    UntouchedReservation(stores, ops, n, key, channel, ttl, since, now);
    ReserveMeans(stores[n], key, rival, rivalTtl, now);
  }

  /** Through the conflict that a rival causes, a booked slot can be released and booked by that rival. */
  lemma BookedSlotCanBeLost(s: Store, key: RoomSlotKey, owner: string, rival: string, now: real)
    requires IsTrail(s) && key in s.records && s.records[key].state == BOOKED && s.records[key].holder == Some(owner)
    requires owner != rival
    ensures var s1 := AfterBook(s, key, rival, now).0;
            var s2 := AfterRelease(s1, key, owner, now).0;
            var s3 := AfterBook(s2, key, rival, now).0;
            s3.records[key].state == BOOKED && s3.records[key].holder == Some(rival)
  {
  }
}
