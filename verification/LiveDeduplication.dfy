/** The two deduplication engines when entries do expire: exactly how long their unexpired keys agree. */
module LiveDeduplication {
  import opened Deduplication

  function Live(records: Records, now: real): Records
  {
    map key | key in records && !Expired(records[key], now) :: records[key]
  }

  /** The unexpired parts of both engines agree. What has expired may lie about in either of them. */
  ghost predicate LiveAgree(records: Records, slots: seq<Slot>, ttl: real, before: real, now: real)
  {
    Agree(Live(records, now), Unexpired(slots, now), ttl, before)
  }

  ghost predicate SameLiveKeys(records: Records, slots: seq<Slot>, now: real)
  {
    forall key :: key in Live(records, now) <==> IndexOf(Unexpired(slots, now), key) < |Unexpired(slots, now)|
  }

  /** No two records were accessed at one time, and none after `before`. */
  ghost predicate Ordered(records: Records, before: real)
  {
    && (forall key :: key in records ==> records[key].lastAccessAt <= before)
    && forall j, k :: j in records && k in records && j != k ==> records[j].lastAccessAt != records[k].lastAccessAt
  }

  ghost predicate SomeExpired(records: Records, now: real)
  {
    exists k :: k in records && Expired(records[k], now)
  }

  /** A miss at the limit evicts a live record although some record has expired. */
  ghost predicate EvictsLive(records: Records, maxEntries: nat, key: string, now: real)
  {
    var rest := records - {key};
    && key !in Live(records, now) && |rest| >= maxEntries
    && SomeExpired(rest, now)
    && exists k :: IsEldest(rest, k) && !Expired(rest[k], now)
  }

  // ---- time passes ---------------------------------------------------------------------------------------

  lemma OtherRecord(records: Records, slot: Slot, ttl: real, before: real, key: string, r: EventRecord)
    requires AgreeAt(records, slot, ttl, before) && key !in records
    ensures slot.key != key && AgreeAt(records[key := r], slot, ttl, before)
    ensures LastAccess(records[key := r], slot) == LastAccess(records, slot)
  {
  }

  lemma IndexPrepended(slot: Slot, slots: seq<Slot>, key: string)
    ensures IndexOf([slot] + slots, key) == if slot.key == key then 0 else 1 + IndexOf(slots, key)
  {
    assert ([slot] + slots)[1..] == slots;
  }

  /** The slot was accessed before all those that it is put in front of. */
  ghost predicate CanPrecede(records: Records, slots: seq<Slot>, ttl: real, before: real, slot: Slot, r: EventRecord)
  {
    && slot.key !in records && AgreeAt(map[slot.key := r], slot, ttl, before)
    && forall i :: 0 <= i < |slots| ==> r.lastAccessAt < LastAccess(records, slots[i])
  }

  lemma PairPrepended(
    records: Records, slots: seq<Slot>, ttl: real, before: real, slot: Slot, r: EventRecord, i: nat, j: nat)
    requires Agree(records, slots, ttl, before) && CanPrecede(records, slots, ttl, before, slot, r)
    requires i < j <= |slots|
    ensures var more, longer := records[slot.key := r], [slot] + slots;
            && AgreeAt(more, longer[i], ttl, before) && AgreeAt(more, longer[j], ttl, before)
            && longer[i].key != longer[j].key && LastAccess(more, longer[i]) < LastAccess(more, longer[j])
  {
    assert AgreeAt(records, slots[j - 1], ttl, before);
    OtherRecord(records, slots[j - 1], ttl, before, slot.key, r);
    if i > 0 {
      assert AgreeAt(records, slots[i - 1], ttl, before);
      OtherRecord(records, slots[i - 1], ttl, before, slot.key, r);
      assert slots[i - 1].key != slots[j - 1].key;
      assert LastAccess(records, slots[i - 1]) < LastAccess(records, slots[j - 1]);
    }
  }

  lemma PrependKeepsAgree(records: Records, slots: seq<Slot>, ttl: real, before: real, slot: Slot, r: EventRecord)
    requires Agree(records, slots, ttl, before) && CanPrecede(records, slots, ttl, before, slot, r)
    ensures Agree(records[slot.key := r], [slot] + slots, ttl, before)
  {
    var more, longer := records[slot.key := r], [slot] + slots;
    forall i | 0 <= i < |longer|
      ensures AgreeAt(more, longer[i], ttl, before)
    {
      if i > 0 {
        PairPrepended(records, slots, ttl, before, slot, r, 0, i);
      }
    }
    forall key | key in more
      ensures IndexOf(longer, key) < |longer|
    {
      IndexPrepended(slot, slots, key);
    }
    forall i, j | 0 <= i < j < |longer|
      ensures longer[i].key != longer[j].key && LastAccess(more, longer[i]) < LastAccess(more, longer[j])
    {
      PairPrepended(records, slots, ttl, before, slot, r, i, j);
    }
  }

  lemma {:induction false} UnexpiredMembers(slots: seq<Slot>, now: real)
    ensures forall slot :: slot in Unexpired(slots, now) ==> slot in slots && slot.expiresAt > now
  {
    if slots != [] {
      UnexpiredMembers(slots[1..], now);
    }
  }

  /** The first entry is the one accessed first; the rest already agrees. */
  lemma FilterFirst(records: Records, slots: seq<Slot>, ttl: real, before: real, now: real)
    requires Agree(records, slots, ttl, before) && slots != []
    requires Agree(Live(records - {slots[0].key}, now), Unexpired(slots[1..], now), ttl, before)
    ensures Agree(Live(records, now), Unexpired(slots, now), ttl, before)
  {
    var slot := slots[0];
    var live, kept := Live(records - {slot.key}, now), Unexpired(slots[1..], now);
    assert AgreeAt(records, slot, ttl, before);
    LiveOfFirst(records, slot, ttl, before, now);
    if slot.expiresAt <= now {
      assert Unexpired(slots, now) == kept;
    } else {
      UnexpiredMembers(slots[1..], now);
      forall i | 0 <= i < |kept|
        ensures records[slot.key].lastAccessAt < LastAccess(live, kept[i])
      {
        assert kept[i] in kept && AgreeAt(live, kept[i], ttl, before);
        LaterInTail(records, slots, ttl, before, kept[i], now);
      }
      PrependKeepsAgree(live, kept, ttl, before, slot, records[slot.key]);
    }
  }

  lemma LiveOfFirst(records: Records, slot: Slot, ttl: real, before: real, now: real)
    requires AgreeAt(records, slot, ttl, before)
    ensures var live := Live(records - {slot.key}, now);
            Live(records, now) == if slot.expiresAt <= now then live else live[slot.key := records[slot.key]]
  {
  }

  lemma {:induction false} FilterKeepsAgree(records: Records, slots: seq<Slot>, ttl: real, before: real, now: real)
    requires Agree(records, slots, ttl, before)
    ensures Agree(Live(records, now), Unexpired(slots, now), ttl, before)
    decreases |slots|
  {
    if slots == [] {
      assert Live(records, now) == map[];
    } else {
      DropFirstKeepsAgree(records, slots, ttl, before);
      FilterKeepsAgree(records - {slots[0].key}, slots[1..], ttl, before, now);
      FilterFirst(records, slots, ttl, before, now);
    }
  }

  lemma LaterInTail(records: Records, slots: seq<Slot>, ttl: real, before: real, slot: Slot, now: real)
    requires Agree(records, slots, ttl, before) && slots != [] && slot in slots[1..]
    requires slot.key in Live(records - {slots[0].key}, now)
    ensures slots[0].key in records
    ensures records[slots[0].key].lastAccessAt < LastAccess(Live(records - {slots[0].key}, now), slot)
  {
    var j :| 1 <= j < |slots| && slots[j] == slot;
    assert AgreeAt(records, slots[0], ttl, before);
    assert LastAccess(records, slots[0]) < LastAccess(records, slots[j]);
  }

  lemma {:induction false} UnexpiredLater(slots: seq<Slot>, now: real, later: real)
    requires now <= later
    ensures Unexpired(Unexpired(slots, now), later) == Unexpired(slots, later)
  {
    if slots != [] {
      UnexpiredLater(slots[1..], now, later);
      var kept := Unexpired(slots[1..], now);
      if slots[0].expiresAt > now {
        assert Unexpired(slots, now)[1..] == kept;
      } else {
        assert Unexpired(slots, now) == kept;
      }
    }
  }

  lemma LiveAgreeLater(records: Records, slots: seq<Slot>, ttl: real, before: real, now: real, later: real)
    requires LiveAgree(records, slots, ttl, before, now) && now <= later
    ensures LiveAgree(records, slots, ttl, before, later)
  {
    FilterKeepsAgree(Live(records, now), Unexpired(slots, now), ttl, before, later);
    UnexpiredLater(slots, now, later);
    assert Live(Live(records, now), later) == Live(records, later);
  }

  // ---- one request -----------------------------------------------------------------------------------------

  /** Slots that agree with unexpired records are unexpired themselves. */
  lemma ThenLiveAgree(records: Records, slots: seq<Slot>, ttl: real, now: real)
    requires Agree(Live(records, now), slots, ttl, now)
    ensures LiveAgree(records, slots, ttl, now, now)
  {
    forall i | 0 <= i < |slots|
      ensures now < slots[i].expiresAt
    {
      assert AgreeAt(Live(records, now), slots[i], ttl, now);
    }
    NothingToSweep(slots, now);
  }

  lemma LiveIsSmaller(records: Records, now: real)
    ensures |Live(records, now)| <= |records|
    ensures SomeExpired(records, now) ==> |Live(records, now)| < |records|
  {
    var live := Live(records, now);
    assert records.Keys == live.Keys + (records.Keys - live.Keys);
    assert |live| == |live.Keys| && |records| == |records.Keys|;
    if k :| k in records && Expired(records[k], now) {
      assert k in records.Keys - live.Keys;
    }
  }

  lemma LiveOfTouched(records: Records, key: string, now: real)
    requires key in Live(records, now)
    ensures key in records && Live(Touched(records, key, now), now) == Touched(Live(records, now), key, now)
  {
  }

  lemma HitKeepsLiveAgree(records: Records, slots: seq<Slot>, ttl: real, before: real, key: string, now: real)
    requires LiveAgree(records, slots, ttl, before, now) && before < now && key in Live(records, now)
    ensures var swept := Unexpired(slots, now);
            && IndexOf(swept, key) < |swept|
            && LiveAgree(Touched(records, key, now), MovedToEnd(swept, IndexOf(swept, key)), ttl, now, now)
  {
    var live, swept := Live(records, now), Unexpired(slots, now);
    HitKeepsAgree(live, swept, ttl, before, key, now);
    LiveOfTouched(records, key, now);
    ThenLiveAgree(Touched(records, key, now), MovedToEnd(swept, IndexOf(swept, key)), ttl, now);
  }

  lemma LiveOfAdded(records: Records, key: string, added: EventRecord, now: real)
    requires !Expired(added, now)
    ensures Live(records[key := added], now) == Live(records, now)[key := added]
  {
  }

  lemma LiveOfDropped(records: Records, key: string, now: real)
    requires key !in Live(records, now)
    ensures Live(records - {key}, now) == Live(records, now)
  {
  }

  /** A miss that leaves all live records in place. */
  lemma RoomyMissKeepsLiveAgree(
    kept: Records, slots: seq<Slot>, maxEntries: nat, ttl: real, before: real, key: string, now: real)
    requires ttl > 0.0 && LiveAgree(kept, slots, ttl, before, now) && before < now && key !in kept
    requires |Live(kept, now)| < maxEntries
    ensures LiveAgree(
              kept[key := Fresh(ttl, now)],
              Trimmed(Unexpired(slots, now) + [Slot(key, now, now + ttl)], maxEntries), ttl, now, now)
  {
    var live, swept := Live(kept, now), Unexpired(slots, now);
    SizesOfAgreeing(live, swept, ttl, before);
    AddKeepsAgree(live, swept, ttl, before, key, now);
    LiveOfAdded(kept, key, Fresh(ttl, now), now);
    ThenLiveAgree(kept[key := Fresh(ttl, now)], swept + [Slot(key, now, now + ttl)], ttl, now);
  }

  /** A miss at the limit when nothing has expired. */
  lemma FullMissKeepsLiveAgree(
    rest: Records, slots: seq<Slot>, maxEntries: nat, ttl: real, before: real, key: string, now: real, eldest: string)
    requires ttl > 0.0 && maxEntries >= 1 && |rest| == maxEntries && before < now
    requires LiveAgree(rest, slots, ttl, before, now) && Live(rest, now) == rest
    requires key !in rest && IsEldest(rest, eldest)
    ensures LiveAgree(
              (rest - {eldest})[key := Fresh(ttl, now)],
              Trimmed(Unexpired(slots, now) + [Slot(key, now, now + ttl)], maxEntries), ttl, now, now)
  {
    MissAtLimitKeepsAgree(rest, Unexpired(slots, now), maxEntries, ttl, before, key, now, eldest);
    var after := (rest - {eldest})[key := Fresh(ttl, now)];
    assert forall k :: k in rest ==> k in Live(rest, now);
    assert Live(after, now) == after;
    ThenLiveAgree(after, Trimmed(Unexpired(slots, now) + [Slot(key, now, now + ttl)], maxEntries), ttl, now);
  }

  /** A live record that the first engine evicts stays in the dict of the second. */
  lemma LiveEvictionDiffers(
    rest: Records, slots: seq<Slot>, maxEntries: nat, ttl: real, before: real, key: string, now: real, eldest: string)
    requires ttl > 0.0 && LiveAgree(rest, slots, ttl, before, now) && before < now && key !in rest
    requires |Live(rest, now)| < maxEntries && eldest in Live(rest, now)
    ensures !SameLiveKeys(
              (rest - {eldest})[key := Fresh(ttl, now)],
              Trimmed(Unexpired(slots, now) + [Slot(key, now, now + ttl)], maxEntries), now)
  {
    RoomyMissKeepsLiveAgree(rest, slots, maxEntries, ttl, before, key, now);
    var dict := Trimmed(Unexpired(slots, now) + [Slot(key, now, now + ttl)], maxEntries);
    FoundIffPresent(Live(rest[key := Fresh(ttl, now)], now), Unexpired(dict, now), ttl, now, eldest);
    assert eldest in Live(rest[key := Fresh(ttl, now)], now);
    assert eldest !in Live((rest - {eldest})[key := Fresh(ttl, now)], now);
  }

  lemma EldestIsUnique(records: Records, before: real, j: string, k: string)
    requires Ordered(records, before) && IsEldest(records, j) && IsEldest(records, k)
    ensures j == k
  {
    assert records[j].lastAccessAt == records[k].lastAccessAt;
  }

  lemma MissStep(
    records: Records, slots: seq<Slot>, maxEntries: nat, ttl: real, before: real, key: string, now: real, kept: Records)
    requires ttl > 0.0 && maxEntries >= 1 && |records| <= maxEntries && Ordered(records, before) && before < now
    requires LiveAgree(records, slots, ttl, before, now) && key !in Live(records, now)
    requires Evicts(records - {key}, maxEntries, kept)
    ensures var after := kept[key := Fresh(ttl, now)];
            var dict := Trimmed(Unexpired(slots, now) + [Slot(key, now, now + ttl)], maxEntries);
            && (!EvictsLive(records, maxEntries, key, now) ==> LiveAgree(after, dict, ttl, now, now))
            && (EvictsLive(records, maxEntries, key, now) ==> !SameLiveKeys(after, dict, now))
  {
    var rest := records - {key};
    LiveOfDropped(records, key, now);
    LiveIsSmaller(rest, now);
    if |rest| < maxEntries {
      RoomyMissKeepsLiveAgree(rest, slots, maxEntries, ttl, before, key, now);
    } else {
      assert |rest| == maxEntries by { DropIsSmaller(records, key); }
      var eldest :| IsEldest(rest, eldest) && kept == rest - {eldest};
      AtLimit(records, slots, maxEntries, ttl, before, key, now, eldest);
    }
  }

  lemma DropIsSmaller(records: Records, key: string)
    ensures |records - {key}| <= |records|
  {
    if key in records {
      RemovalShrinks(records, key);
    } else {
      assert records - {key} == records;
    }
  }

  lemma AtLimit(
    records: Records, slots: seq<Slot>, maxEntries: nat, ttl: real, before: real, key: string, now: real,
    eldest: string)
    requires ttl > 0.0 && maxEntries >= 1 && Ordered(records, before) && before < now
    requires LiveAgree(records, slots, ttl, before, now) && key !in Live(records, now)
    requires |records - {key}| == maxEntries && IsEldest(records - {key}, eldest)
    ensures var after := (records - {key} - {eldest})[key := Fresh(ttl, now)];
            var dict := Trimmed(Unexpired(slots, now) + [Slot(key, now, now + ttl)], maxEntries);
            && (!EvictsLive(records, maxEntries, key, now) ==> LiveAgree(after, dict, ttl, now, now))
            && (EvictsLive(records, maxEntries, key, now) ==> !SameLiveKeys(after, dict, now))
  {
    var rest := records - {key};
    LiveOfDropped(records, key, now);
    AtLimitIff(records, maxEntries, before, key, now, eldest);
    LiveIsSmaller(rest, now);
    if Expired(rest[eldest], now) {
      LiveOfDropped(rest, eldest, now);
      RoomyMissKeepsLiveAgree(rest - {eldest}, slots, maxEntries, ttl, before, key, now);
    } else if SomeExpired(rest, now) {
      LiveEvictionDiffers(rest, slots, maxEntries, ttl, before, key, now, eldest);
    } else {
      AllLive(rest, now);
      FullMissKeepsLiveAgree(rest, slots, maxEntries, ttl, before, key, now, eldest);
    }
  }

  lemma AllLive(records: Records, now: real)
    requires !SomeExpired(records, now)
    ensures Live(records, now) == records
  {
  }

  lemma AtLimitIff(records: Records, maxEntries: nat, before: real, key: string, now: real, eldest: string)
    requires Ordered(records, before) && key !in Live(records, now)
    requires |records - {key}| == maxEntries && IsEldest(records - {key}, eldest)
    ensures EvictsLive(records, maxEntries, key, now) <==>
            SomeExpired(records - {key}, now) && !Expired((records - {key})[eldest], now)
  {
    OnlyEldest(records - {key}, before, eldest);
  }

  lemma OnlyEldest(records: Records, before: real, eldest: string)
    requires Ordered(records, before) && IsEldest(records, eldest)
    ensures forall k :: IsEldest(records, k) ==> k == eldest
  {
    forall k | IsEldest(records, k)
      ensures k == eldest
    {
      EldestIsUnique(records, before, k, eldest);
    }
  }

  lemma EvictionKeepsOrder(rest: Records, maxEntries: nat, before: real, kept: Records)
    requires maxEntries >= 1 && |rest| <= maxEntries && Ordered(rest, before) && Evicts(rest, maxEntries, kept)
    ensures Ordered(kept, before) && |kept| < maxEntries && kept.Keys <= rest.Keys
  {
    if |rest| >= maxEntries {
      var eldest :| IsEldest(rest, eldest) && kept == rest - {eldest};
      RemovalShrinks(rest, eldest);
    }
  }

  lemma ChecksKeepOrder(
    records: Records, maxEntries: nat, key: string, ttl: real, before: real, now: real, after: Records, duplicate: bool)
    requires maxEntries >= 1 && |records| <= maxEntries && Ordered(records, before) && before < now
    requires Checks(records, maxEntries, key, ttl, now, after, duplicate)
    ensures Ordered(after, now) && |after| <= maxEntries
  {
    if duplicate {
      SameKeysSameSize(after, records);
    } else {
      DropIsSmaller(records, key);
      var kept :| Evicts(records - {key}, maxEntries, kept) && after == kept[key := EventRecord(now, 0, ttl, now)];
      EvictionKeepsOrder(records - {key}, maxEntries, before, kept);
      FreshKeepsOrder(kept, before, key, EventRecord(now, 0, ttl, now));
    }
  }

  lemma FreshKeepsOrder(records: Records, before: real, key: string, added: EventRecord)
    requires Ordered(records, before) && key !in records && before < added.lastAccessAt
    ensures Ordered(records[key := added], added.lastAccessAt) && |records[key := added]| == |records| + 1
  {
    InsertionGrows(records, key, added);
  }

  /**
   * One request on both engines whose live parts agree: the verdicts are the same, and afterwards the live keys are
   * the same exactly if the request does not evict a live record while some record has expired.
   */
  lemma LiveKeysAgreeIff(
    records: Records, slots: seq<Slot>, maxEntries: nat, ttl: real, before: real, key: string, now: real,
    after: Records, duplicate: bool)
    requires ttl > 0.0 && maxEntries >= 1 && |records| <= maxEntries && Ordered(records, before) && before < now
    requires LiveAgree(records, slots, ttl, before, now)
    requires Checks(records, maxEntries, key, ttl, now, after, duplicate)
    ensures var (dict, answer) := AfterRegister(slots, maxEntries, key, ttl, now);
            && answer == duplicate
            && (SameLiveKeys(after, dict, now) <==> !EvictsLive(records, maxEntries, key, now))
            && (SameLiveKeys(after, dict, now) ==> LiveAgree(after, dict, ttl, now, now))
  {
    var (dict, answer) := AfterRegister(slots, maxEntries, key, ttl, now);
    FoundIffPresent(Live(records, now), Unexpired(slots, now), ttl, before, key);
    if duplicate {
      HitKeepsLiveAgree(records, slots, ttl, before, key, now);
    } else {
      var kept :| Evicts(records - {key}, maxEntries, kept) && after == kept[key := EventRecord(now, 0, ttl, now)];
      MissStep(records, slots, maxEntries, ttl, before, key, now, kept);
    }
    if LiveAgree(after, dict, ttl, now, now) {
      AgreeingKeysAreSame(after, dict, ttl, now);
    }
  }

  lemma AgreeingKeysAreSame(records: Records, slots: seq<Slot>, ttl: real, now: real)
    requires LiveAgree(records, slots, ttl, now, now)
    ensures SameLiveKeys(records, slots, now)
  {
    forall key
      ensures key in Live(records, now) <==> IndexOf(Unexpired(slots, now), key) < |Unexpired(slots, now)|
    {
      FoundIffPresent(Live(records, now), Unexpired(slots, now), ttl, now, key);
    }
  }

  // ---- runs ------------------------------------------------------------------------------------------------

  /** The two engines side by side: their states, and their verdicts. */
  datatype Twin = Twin(table: Records, dict: seq<Slot>)

  ghost predicate Serves(s: Twin, r: Request, maxEntries: nat, ttl: real, t: Twin, verdict: bool, answer: bool)
  {
    && Checks(s.table, maxEntries, r.key, ttl, r.now, t.table, verdict)
    && (t.dict, answer) == AfterRegister(s.dict, maxEntries, r.key, ttl, r.now)
  }

  ghost predicate ServesAt(
    requests: seq<Request>, maxEntries: nat, ttl: real, twins: seq<Twin>, verdicts: seq<bool>, answers: seq<bool>,
    i: nat)
    requires i < |requests| == |verdicts| == |answers| && |twins| == |requests| + 1
  {
    && (i > 0 ==> requests[i - 1].now < requests[i].now)
    && Serves(twins[i], requests[i], maxEntries, ttl, twins[i + 1], verdicts[i], answers[i])
  }

  /** Any run of both engines on the same requests with a strictly increasing clock; entries may expire. */
  ghost predicate IsTwinRun(
    requests: seq<Request>, maxEntries: nat, ttl: real, twins: seq<Twin>, verdicts: seq<bool>, answers: seq<bool>)
  {
    && maxEntries >= 1 && ttl > 0.0
    && |twins| == |requests| + 1 && |verdicts| == |answers| == |requests|
    && twins[0] == Twin(map[], [])
    && forall i :: 0 <= i < |requests| ==> ServesAt(requests, maxEntries, ttl, twins, verdicts, answers, i)
  }

  ghost predicate LosesAt(requests: seq<Request>, maxEntries: nat, twins: seq<Twin>, i: nat)
    requires i < |requests| < |twins|
  {
    EvictsLive(twins[i].table, maxEntries, requests[i].key, requests[i].now)
  }

  ghost predicate SameAfter(requests: seq<Request>, twins: seq<Twin>, i: nat)
    requires i < |requests| < |twins|
  {
    SameLiveKeys(twins[i + 1].table, twins[i + 1].dict, requests[i].now)
  }

  /** The live parts agree, as of the last request. */
  ghost predicate InStep(s: Twin, maxEntries: nat, ttl: real, now: real)
  {
    |s.table| <= maxEntries && Ordered(s.table, now) && LiveAgree(s.table, s.dict, ttl, now, now)
  }

  lemma NothingInStep(maxEntries: nat, ttl: real, now: real)
    ensures InStep(Twin(map[], []), maxEntries, ttl, now)
  {
    assert Live(map[], now) == map[];
  }

  lemma ServingInStep(
    s: Twin, r: Request, maxEntries: nat, ttl: real, t: Twin, verdict: bool, answer: bool, before: real)
    requires ttl > 0.0 && maxEntries >= 1 && InStep(s, maxEntries, ttl, before) && before < r.now
    requires Serves(s, r, maxEntries, ttl, t, verdict, answer)
    ensures verdict == answer
    ensures SameLiveKeys(t.table, t.dict, r.now) <==> !EvictsLive(s.table, maxEntries, r.key, r.now)
    ensures SameLiveKeys(t.table, t.dict, r.now) ==> InStep(t, maxEntries, ttl, r.now)
  {
    LiveAgreeLater(s.table, s.dict, ttl, before, before, r.now);
    LiveKeysAgreeIff(s.table, s.dict, maxEntries, ttl, before, r.key, r.now, t.table, verdict);
    ChecksKeepOrder(s.table, maxEntries, r.key, ttl, before, r.now, t.table, verdict);
  }

  lemma ServingAtInStep(
    requests: seq<Request>, maxEntries: nat, ttl: real, twins: seq<Twin>, verdicts: seq<bool>, answers: seq<bool>,
    i: nat, before: real)
    requires maxEntries >= 1 && ttl > 0.0
    requires i < |requests| == |verdicts| == |answers| && |twins| == |requests| + 1
    requires ServesAt(requests, maxEntries, ttl, twins, verdicts, answers, i)
    requires InStep(twins[i], maxEntries, ttl, before) && before < requests[i].now
    ensures verdicts[i] == answers[i]
    ensures SameAfter(requests, twins, i) <==> !LosesAt(requests, maxEntries, twins, i)
    ensures SameAfter(requests, twins, i) ==> InStep(twins[i + 1], maxEntries, ttl, requests[i].now)
  {
    ServingInStep(twins[i], requests[i], maxEntries, ttl, twins[i + 1], verdicts[i], answers[i], before);
  }

  ghost predicate NoneLoses(requests: seq<Request>, maxEntries: nat, twins: seq<Twin>, n: nat)
    requires n <= |requests| < |twins|
  {
    forall i :: 0 <= i < n ==> !LosesAt(requests, maxEntries, twins, i)
  }

  ghost predicate AllSame(requests: seq<Request>, twins: seq<Twin>, n: nat)
    requires n <= |requests| < |twins|
  {
    forall i :: 0 <= i < n ==> SameAfter(requests, twins, i)
  }

  /** Some time before the `i`-th request at which the engines were in step. */
  ghost predicate WasInStep(requests: seq<Request>, maxEntries: nat, ttl: real, twins: seq<Twin>, i: nat)
    requires i < |requests| < |twins|
  {
    exists before :: before < requests[i].now && InStep(twins[i], maxEntries, ttl, before)
  }

  lemma StartsInStep(
    requests: seq<Request>, maxEntries: nat, ttl: real, twins: seq<Twin>, verdicts: seq<bool>, answers: seq<bool>)
    requires IsTwinRun(requests, maxEntries, ttl, twins, verdicts, answers) && requests != []
    ensures WasInStep(requests, maxEntries, ttl, twins, 0)
  {
    NothingInStep(maxEntries, ttl, requests[0].now - 1.0);
    assert InStep(twins[0], maxEntries, ttl, requests[0].now - 1.0);
  }

  lemma RequestInRun(
    requests: seq<Request>, maxEntries: nat, ttl: real, twins: seq<Twin>, verdicts: seq<bool>, answers: seq<bool>,
    i: nat)
    requires IsTwinRun(requests, maxEntries, ttl, twins, verdicts, answers) && i < |requests|
    requires WasInStep(requests, maxEntries, ttl, twins, i)
    ensures verdicts[i] == answers[i]
    ensures SameAfter(requests, twins, i) <==> !LosesAt(requests, maxEntries, twins, i)
    ensures SameAfter(requests, twins, i) && i + 1 < |requests| ==> WasInStep(requests, maxEntries, ttl, twins, i + 1)
  {
    var before :| before < requests[i].now && InStep(twins[i], maxEntries, ttl, before);
    assert ServesAt(requests, maxEntries, ttl, twins, verdicts, answers, i);
    ServingAtInStep(requests, maxEntries, ttl, twins, verdicts, answers, i, before);
    if i + 1 < |requests| {
      assert ServesAt(requests, maxEntries, ttl, twins, verdicts, answers, i + 1);
    }
  }

  lemma {:induction false} RunWasInStep(
    requests: seq<Request>, maxEntries: nat, ttl: real, twins: seq<Twin>, verdicts: seq<bool>, answers: seq<bool>,
    i: nat)
    requires IsTwinRun(requests, maxEntries, ttl, twins, verdicts, answers) && i < |requests|
    requires NoneLoses(requests, maxEntries, twins, i)
    ensures WasInStep(requests, maxEntries, ttl, twins, i)
  {
    if i == 0 {
      StartsInStep(requests, maxEntries, ttl, twins, verdicts, answers);
    } else {
      RunWasInStep(requests, maxEntries, ttl, twins, verdicts, answers, i - 1);
      RequestInRun(requests, maxEntries, ttl, twins, verdicts, answers, i - 1);
    }
  }

  /**
   * Over every run, expiry included, the unexpired keys of the two engines are the same after each of the first `n`
   * requests exactly if none of these evicts a live record while some record has expired.
   */
  lemma {:induction false} EnginesAgreeIffNoLiveEviction(
    requests: seq<Request>, maxEntries: nat, ttl: real, twins: seq<Twin>, verdicts: seq<bool>, answers: seq<bool>,
    n: nat)
    requires IsTwinRun(requests, maxEntries, ttl, twins, verdicts, answers) && n <= |requests|
    ensures AllSame(requests, twins, n) <==> NoneLoses(requests, maxEntries, twins, n)
  {
    if n > 0 {
      EnginesAgreeIffNoLiveEviction(requests, maxEntries, ttl, twins, verdicts, answers, n - 1);
      if NoneLoses(requests, maxEntries, twins, n - 1) {
        RunWasInStep(requests, maxEntries, ttl, twins, verdicts, answers, n - 1);
        RequestInRun(requests, maxEntries, ttl, twins, verdicts, answers, n - 1);
      }
    }
  }

  /** Up to the first request that does, and for that one as well, the verdicts are the same. */
  lemma VerdictsAgreeUntilLiveEviction(
    requests: seq<Request>, maxEntries: nat, ttl: real, twins: seq<Twin>, verdicts: seq<bool>, answers: seq<bool>,
    i: nat)
    requires IsTwinRun(requests, maxEntries, ttl, twins, verdicts, answers) && i < |requests|
    requires NoneLoses(requests, maxEntries, twins, i)
    ensures verdicts[i] == answers[i]
  {
    RunWasInStep(requests, maxEntries, ttl, twins, verdicts, answers, i);
    RequestInRun(requests, maxEntries, ttl, twins, verdicts, answers, i);
  }
}
