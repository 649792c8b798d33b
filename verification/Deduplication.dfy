/** Two deduplication engines: one evicts by the oldest access time, one by the order of an ordered dict. */
module Deduplication {
  import opened Options

  datatype EventRecord = EventRecord(firstSeenAt: real, hitCount: nat, ttl: real, lastAccessAt: real)

  type Records = map<string, EventRecord>

  predicate Expired(r: EventRecord, now: real)
  {
    now - r.firstSeenAt >= r.ttl
  }

  predicate IsEldest(records: Records, key: string)
  {
    key in records && forall other :: other in records ==> records[key].lastAccessAt <= records[other].lastAccessAt
  }

  lemma EldestExists(records: Records) returns (eldest: string)
    requires records != map[]
    ensures IsEldest(records, eldest)
    decreases |records|
  {
    assert records.Keys != {};
    var key :| key in records;
    var rest := records - {key};
    if rest == map[] {
      assert forall other :: other in records ==> other == key || other in rest;
      eldest := key;
    } else {
      RemovalShrinks(records, key);
      eldest := EldestExists(rest);
      assert forall other :: other in records ==> other == key || other in rest;
      if records[key].lastAccessAt < records[eldest].lastAccessAt {
        eldest := key;
      }
    }
  }

  lemma RemovalShrinks(records: Records, key: string)
    requires key in records
    ensures |records - {key}| == |records| - 1
  {
    assert (records - {key}).Keys == records.Keys - {key};
    assert |records - {key}| == |(records - {key}).Keys| && |records| == |records.Keys|;
  }

  lemma InsertionGrows(records: Records, key: string, r: EventRecord)
    requires key !in records
    ensures |records[key := r]| == |records| + 1
  {
    assert records[key := r] - {key} == records;
    RemovalShrinks(records[key := r], key);
  }

  /** Eviction makes room for one more: at the limit it removes one eldest record. */
  ghost predicate Evicts(records: Records, maxEntries: nat, kept: Records)
  {
    if |records| < maxEntries then kept == records
    else exists key :: IsEldest(records, key) && kept == records - {key}
  }

  /** A check answers `duplicate` for a live record, and otherwise stores a new record, evicting if needed. */
  ghost predicate Checks(
    records: Records, maxEntries: nat, key: string, ttl: real, now: real, after: Records, duplicate: bool)
  {
    && (duplicate <==> key in records && !Expired(records[key], now))
    && (duplicate ==>
          after == records[key := records[key].(hitCount := records[key].hitCount + 1, lastAccessAt := now)])
    && (!duplicate ==>
          exists kept :: Evicts(records - {key}, maxEntries, kept)
            && after == kept[key := EventRecord(now, 0, ttl, now)])
  }

  class DeduplicationEngine {
    const defaultTtl: real
    const maxEntries: nat
    var records: Records
    var hits: nat
    var misses: nat
    var expiredPurges: nat
    var evictions: nat
    ghost var forced: nat     // removals by force_expire

    /** Every miss is still live, or was purged, evicted or removed by force. */
    ghost predicate Valid()
      reads this
    {
      && maxEntries >= 1 && |records| <= maxEntries
      && misses == |records| + expiredPurges + evictions + forced
    }

    constructor (defaultTtl: real, maxEntries: nat)
      requires defaultTtl > 0.0 && maxEntries >= 1
      ensures Valid() && this.defaultTtl == defaultTtl && this.maxEntries == maxEntries
      ensures records == map[] && hits == misses == expiredPurges == evictions == forced == 0
    {
      this.defaultTtl := defaultTtl;
      this.maxEntries := maxEntries;
      records := map[];
      hits, misses, expiredPurges, evictions, forced := 0, 0, 0, 0, 0;
    }

    method EvictIfNeeded()
      requires maxEntries >= 1 && |records| <= maxEntries
      modifies this`records, this`evictions
      ensures Evicts(old(records), maxEntries, records) && |records| < maxEntries
      ensures |records| + evictions == |old(records)| + old(evictions)
    {
      while |records| >= maxEntries
        invariant |records| <= maxEntries
        invariant |records| + evictions == |old(records)| + old(evictions)
        invariant records == old(records) || Evicts(old(records), maxEntries, records)
        invariant |records| == maxEntries ==> records == old(records)
        decreases |records|
      {
        ghost var oldest := EldestExists(records);
        var eldest :| eldest in records && IsEldest(records, eldest);
        RemovalShrinks(records, eldest);
        records := records - {eldest};
        evictions := evictions + 1;
      }
    }

    method Check(key: string, ttl: Option<real>, now: real) returns (duplicate: bool)
      requires Valid() && (ttl.Some? ==> ttl.value > 0.0)
      modifies this
      ensures Valid() && forced == old(forced)
      ensures var effective := if ttl.Some? then ttl.value else defaultTtl;
              Checks(old(records), maxEntries, key, effective, now, records, duplicate)
      ensures hits == old(hits) + (if duplicate then 1 else 0)
      ensures misses == old(misses) + (if duplicate then 0 else 1)
      ensures expiredPurges == old(expiredPurges) + (if key in old(records) && !duplicate then 1 else 0)
    {
      var effective := if ttl.Some? then ttl.value else defaultTtl;
      if key in records {
        var existing := records[key];
        if !Expired(existing, now) {
          records := records[key := existing.(hitCount := existing.hitCount + 1, lastAccessAt := now)];
          assert records.Keys == old(records).Keys;
          SameKeysSameSize(records, old(records));
          hits := hits + 1;
          return true;
        }
        RemovalShrinks(records, key);
        records := records - {key};
        expiredPurges := expiredPurges + 1;
      }
      assert records == old(records) - {key};
      EvictIfNeeded();
      InsertionGrows(records, key, EventRecord(now, 0, effective, now));
      records := records[key := EventRecord(now, 0, effective, now)];
      misses := misses + 1;
      duplicate := false;
    }

    method ForceExpire(key: string) returns (removed: bool)
      requires Valid()
      modifies this`records, this`forced
      ensures Valid() && (removed <==> key in old(records))
      ensures records == old(records) - {key} && forced == old(forced) + (if removed then 1 else 0)
    {
      removed := key in records;
      if removed {
        RemovalShrinks(records, key);
        forced := forced + 1;
      }
      records := records - {key};
    }

    method CleanupExpired(now: real) returns (count: nat)
      requires Valid()
      modifies this`records, this`expiredPurges
      ensures Valid() && expiredPurges == old(expiredPurges) + count
      ensures records == map key | key in old(records) && !Expired(old(records)[key], now) :: old(records)[key]
    {
      count := 0;
      var rest := set key | key in records && Expired(records[key], now);
      while rest != {}
        invariant |records| <= maxEntries && |records| + count == |old(records)| && expiredPurges == old(expiredPurges)
        invariant forall key :: key in records <==>
                    key in old(records) && (Expired(old(records)[key], now) ==> key in rest)
        invariant forall key :: key in records ==> records[key] == old(records)[key]
        invariant rest <= records.Keys
      {
        var key :| key in rest;
        RemovalShrinks(records, key);
        records := records - {key};
        rest := rest - {key};
        count := count + 1;
      }
      expiredPurges := expiredPurges + count;
    }
  }

  lemma SameKeysSameSize(a: Records, b: Records)
    requires a.Keys == b.Keys
    ensures |a| == |b|
  {
    assert |a| == |a.Keys| && |b| == |b.Keys|;
  }

  // ---- the engine over an ordered dict ------------------------------------------------------------------

  /** One entry of the ordered dict; the sequence is its order. */
  datatype Slot = Slot(key: string, registeredAt: real, expiresAt: real)

  function Unexpired(slots: seq<Slot>, now: real): seq<Slot>
  {
    if slots == [] then [] else
      (if slots[0].expiresAt <= now then [] else [slots[0]]) + Unexpired(slots[1..], now)
  }

  /** The place of `key`, or the length. */
  function IndexOf(slots: seq<Slot>, key: string): (i: nat)
    ensures i <= |slots| && (i < |slots| ==> slots[i].key == key)
    ensures forall j :: 0 <= j < i ==> slots[j].key != key
  {
    if slots == [] || slots[0].key == key then 0 else 1 + IndexOf(slots[1..], key)
  }

  function MovedToEnd(slots: seq<Slot>, i: nat): seq<Slot>
    requires i < |slots|
  {
    slots[..i] + slots[i + 1..] + [slots[i]]
  }

  function Trimmed(slots: seq<Slot>, maxEntries: nat): seq<Slot>
  {
    if |slots| <= maxEntries then slots else slots[|slots| - maxEntries..]
  }

  function AfterRegister(slots: seq<Slot>, maxEntries: nat, key: string, ttl: real, now: real): (seq<Slot>, bool)
  {
    var swept := Unexpired(slots, now);
    var i := IndexOf(swept, key);
    if i < |swept| then (MovedToEnd(swept, i), true)
    else (Trimmed(swept + [Slot(key, now, now + ttl)], maxEntries), false)
  }

  class GraphityDedupEngine {
    const ttl: real
    const maxEntries: nat
    var slots: seq<Slot>

    constructor (ttl: real, maxEntries: nat)
      requires ttl > 0.0 && maxEntries > 0
      ensures this.ttl == ttl && this.maxEntries == maxEntries && slots == []
    {
      this.ttl := ttl;
      this.maxEntries := maxEntries;
      slots := [];
    }

    method CheckAndRegister(key: string, now: real) returns (duplicate: bool)
      modifies this
      ensures (slots, duplicate) == AfterRegister(old(slots), maxEntries, key, ttl, now)
    {
      slots := Unexpired(slots, now);
      var i := IndexOf(slots, key);
      if i < |slots| {
        slots := MovedToEnd(slots, i);
        return true;
      }
      slots := slots + [Slot(key, now, now + ttl)];
      EvictLru();
      duplicate := false;
    }

    method EvictLru()
      modifies this
      ensures slots == Trimmed(old(slots), maxEntries)
    {
      while |slots| > maxEntries
        invariant |slots| <= |old(slots)| && slots == old(slots)[|old(slots)| - |slots|..]
        invariant |slots| >= maxEntries || slots == old(slots)
      {
        slots := slots[1..];
      }
    }
  }

  // ---- the two engines agree as long as nothing expires ---------------------------------------------------

  ghost predicate DistinctKeys(slots: seq<Slot>)
  {
    forall i, j :: 0 <= i < j < |slots| ==> slots[i].key != slots[j].key
  }

  /** Both engines hold the same keys with the same ages, and the ordered dict is ordered by access time. */
  ghost predicate Agree(records: Records, slots: seq<Slot>, ttl: real, now: real)
  {
    && DistinctKeys(slots)
    && (forall key :: key in records ==> IndexOf(slots, key) < |slots|)
    && (forall i :: 0 <= i < |slots| ==> AgreeAt(records, slots[i], ttl, now))
    && (forall i, j :: 0 <= i < j < |slots| ==> LastAccess(records, slots[i]) < LastAccess(records, slots[j]))
  }

  ghost predicate AgreeAt(records: Records, slot: Slot, ttl: real, now: real)
  {
    && slot.key in records
    && records[slot.key].firstSeenAt == slot.registeredAt && records[slot.key].ttl == ttl
    && slot.expiresAt == slot.registeredAt + ttl && records[slot.key].lastAccessAt <= now
  }

  ghost function LastAccess(records: Records, slot: Slot): real
  {
    if slot.key in records then records[slot.key].lastAccessAt else 0.0
  }

  ghost predicate NothingExpired(slots: seq<Slot>, now: real)
  {
    forall i :: 0 <= i < |slots| ==> now < slots[i].expiresAt
  }

  lemma {:induction false} NothingToSweep(slots: seq<Slot>, now: real)
    requires NothingExpired(slots, now)
    ensures Unexpired(slots, now) == slots
  {
    if slots != [] {
      NothingToSweep(slots[1..], now);
    }
  }

  lemma {:induction false} SizesAgree(records: Records, slots: seq<Slot>)
    requires DistinctKeys(slots) && (forall i :: 0 <= i < |slots| ==> slots[i].key in records)
    requires forall key :: key in records ==> IndexOf(slots, key) < |slots|
    ensures |records| == |slots|
    decreases |slots|
  {
    if slots == [] {
      assert forall key :: key !in records;
      assert records == map[];
    } else {
      var rest := records - {slots[0].key};
      RemovalShrinks(records, slots[0].key);
      SizesAgree(rest, slots[1..]);
    }
  }

  lemma FoundIffPresent(records: Records, slots: seq<Slot>, ttl: real, now: real, key: string)
    requires Agree(records, slots, ttl, now)
    ensures IndexOf(slots, key) < |slots| <==> key in records
  {
    var i := IndexOf(slots, key);
    if i < |slots| {
      assert AgreeAt(records, slots[i], ttl, now);
    }
  }

  function Touched(records: Records, key: string, now: real): Records
    requires key in records
  {
    records[key := records[key].(hitCount := records[key].hitCount + 1, lastAccessAt := now)]
  }

  /** Where the entry at place `j` stood before the entry at `i` moved to the end of `n` entries. */
  function Source(i: nat, j: nat, n: nat): nat
    requires i < n && j < n
  {
    if j < i then j else if j < n - 1 then j + 1 else i
  }

  lemma MovedAt(slots: seq<Slot>, i: nat, j: nat)
    requires i < |slots| && j < |slots|
    ensures |MovedToEnd(slots, i)| == |slots| && MovedToEnd(slots, i)[j] == slots[Source(i, j, |slots|)]
  {
  }

  lemma HitKeepsOrder(records: Records, slots: seq<Slot>, ttl: real, before: real, i: nat, now: real, j: nat, k: nat)
    requires Agree(records, slots, ttl, before) && before < now && i < |slots| && j < k < |slots|
    ensures slots[i].key in records
    ensures var after, moved := Touched(records, slots[i].key, now), MovedToEnd(slots, i);
            && |moved| == |slots| && moved[j].key != moved[k].key
            && LastAccess(after, moved[j]) < LastAccess(after, moved[k])
  {
    assert AgreeAt(records, slots[i], ttl, before);
    MovedAt(slots, i, j);
    MovedAt(slots, i, k);
    var u, v := Source(i, j, |slots|), Source(i, k, |slots|);
    assert AgreeAt(records, slots[u], ttl, before) && AgreeAt(records, slots[v], ttl, before);
    if u < v {
      assert LastAccess(records, slots[u]) < LastAccess(records, slots[v]);
    }
  }

  lemma HitKeepsEntry(records: Records, slots: seq<Slot>, ttl: real, before: real, i: nat, now: real, j: nat)
    requires Agree(records, slots, ttl, before) && before < now && i < |slots| && j < |slots|
    ensures slots[i].key in records && |MovedToEnd(slots, i)| == |slots|
    ensures AgreeAt(Touched(records, slots[i].key, now), MovedToEnd(slots, i)[j], ttl, now)
  {
    assert AgreeAt(records, slots[i], ttl, before);
    MovedAt(slots, i, j);
    assert AgreeAt(records, slots[Source(i, j, |slots|)], ttl, before);
  }

  lemma MovedHasKey(slots: seq<Slot>, i: nat, key: string)
    requires i < |slots| && IndexOf(slots, key) < |slots|
    ensures IndexOf(MovedToEnd(slots, i), key) < |slots|
  {
    var k := IndexOf(slots, key);
    var moved := MovedToEnd(slots, i);
    assert moved[if k < i then k else if k == i then |slots| - 1 else k - 1] == slots[k];
  }

  /** A hit moves the entry to the end of the dict and gives it the newest access time. */
  lemma HitKeepsAgree(records: Records, slots: seq<Slot>, ttl: real, before: real, key: string, now: real)
    requires Agree(records, slots, ttl, before) && before < now && key in records
    ensures var i := IndexOf(slots, key);
            i < |slots| && Agree(Touched(records, key, now), MovedToEnd(slots, i), ttl, now)
  {
    var i := IndexOf(slots, key);
    var after, moved := Touched(records, key, now), MovedToEnd(slots, i);
    forall j | 0 <= j < |moved|
      ensures AgreeAt(after, moved[j], ttl, now)
    {
      HitKeepsEntry(records, slots, ttl, before, i, now, j);
    }
    forall other | other in after
      ensures IndexOf(moved, other) < |moved|
    {
      MovedHasKey(slots, i, other);
    }
    forall j, k | 0 <= j < k < |moved|
      ensures moved[j].key != moved[k].key && LastAccess(after, moved[j]) < LastAccess(after, moved[k])
    {
      HitKeepsOrder(records, slots, ttl, before, i, now, j, k);
    }
  }

  /** The eldest record is the first entry of the dict. */
  lemma EldestIsFirst(records: Records, slots: seq<Slot>, ttl: real, now: real, key: string)
    requires Agree(records, slots, ttl, now) && IsEldest(records, key)
    ensures slots != [] && slots[0].key == key
  {
    var i := IndexOf(slots, key);
    assert AgreeAt(records, slots[0], ttl, now);
    assert i == 0 || LastAccess(records, slots[0]) < LastAccess(records, slots[i]);
  }

  lemma DropFirstKeepsAgree(records: Records, slots: seq<Slot>, ttl: real, now: real)
    requires Agree(records, slots, ttl, now) && slots != []
    ensures Agree(records - {slots[0].key}, slots[1..], ttl, now)
  {
    var rest, tail := records - {slots[0].key}, slots[1..];
    forall i | 0 <= i < |tail|
      ensures AgreeAt(rest, tail[i], ttl, now)
    {
      assert AgreeAt(records, slots[i + 1], ttl, now);
    }
    forall i, j | 0 <= i < j < |tail|
      ensures LastAccess(rest, tail[i]) < LastAccess(rest, tail[j])
    {
      assert AgreeAt(rest, tail[i], ttl, now) && AgreeAt(rest, tail[j], ttl, now);
      assert LastAccess(records, slots[i + 1]) < LastAccess(records, slots[j + 1]);
    }
    forall key | key in rest
      ensures IndexOf(tail, key) < |tail|
    {
      assert IndexOf(slots, key) > 0;
    }
  }

  lemma AddKeepsAgree(records: Records, slots: seq<Slot>, ttl: real, before: real, key: string, now: real)
    requires Agree(records, slots, ttl, before) && before < now && key !in records
    ensures Agree(records[key := EventRecord(now, 0, ttl, now)], slots + [Slot(key, now, now + ttl)], ttl, now)
  {
    var after, longer := records[key := EventRecord(now, 0, ttl, now)], slots + [Slot(key, now, now + ttl)];
    forall i | 0 <= i < |longer|
      ensures AgreeAt(after, longer[i], ttl, now)
      ensures i < |slots| ==>
              slots[i].key != key && LastAccess(after, longer[i]) == LastAccess(records, slots[i]) <= before
    {
      if i < |slots| {
        assert AgreeAt(records, slots[i], ttl, before);
      }
    }
    forall other | other in after
      ensures IndexOf(longer, other) < |longer|
    {
      var i := if other == key then |slots| else IndexOf(slots, other);
      assert longer[i].key == other;
    }
    forall i, j | 0 <= i < j < |longer|
      ensures longer[i].key != longer[j].key && LastAccess(after, longer[i]) < LastAccess(after, longer[j])
    {
      if j < |slots| {
        assert LastAccess(records, slots[i]) < LastAccess(records, slots[j]);
      }
    }
  }

  function Fresh(ttl: real, now: real): EventRecord
  {
    EventRecord(now, 0, ttl, now)
  }

  lemma MissAtLimitKeepsAgree(
    records: Records, slots: seq<Slot>, maxEntries: nat, ttl: real, before: real,
    key: string, now: real, eldest: string)
    requires maxEntries >= 1 && |records| == maxEntries && Agree(records, slots, ttl, before) && before < now
    requires key !in records && IsEldest(records, eldest)
    ensures Agree(
              (records - {eldest})[key := Fresh(ttl, now)],
              Trimmed(slots + [Slot(key, now, now + ttl)], maxEntries), ttl, now)
  {
    var slot := Slot(key, now, now + ttl);
    SizesOfAgreeing(records, slots, ttl, before);
    EldestIsFirst(records, slots, ttl, before, eldest);
    DropFirstKeepsAgree(records, slots, ttl, before);
    AddKeepsAgree(records - {eldest}, slots[1..], ttl, before, key, now);
    assert Trimmed(slots + [slot], maxEntries) == slots[1..] + [slot];
  }

  lemma MissKeepsAgree(
    records: Records, slots: seq<Slot>, maxEntries: nat, ttl: real, before: real, key: string, now: real, kept: Records)
    requires maxEntries >= 1 && |records| <= maxEntries && Agree(records, slots, ttl, before) && before < now
    requires key !in records && Evicts(records, maxEntries, kept)
    ensures |kept[key := Fresh(ttl, now)]| <= maxEntries
    ensures Agree(kept[key := Fresh(ttl, now)], Trimmed(slots + [Slot(key, now, now + ttl)], maxEntries), ttl, now)
  {
    if |records| < maxEntries {
      SizesOfAgreeing(records, slots, ttl, before);
      AddKeepsAgree(records, slots, ttl, before, key, now);
      InsertionGrows(records, key, Fresh(ttl, now));
    } else {
      var eldest :| IsEldest(records, eldest) && kept == records - {eldest};
      MissAtLimitKeepsAgree(records, slots, maxEntries, ttl, before, key, now, eldest);
      RemovalShrinks(records, eldest);
      InsertionGrows(kept, key, Fresh(ttl, now));
    }
  }

  lemma RequestOfNewKey(
    records: Records, maxEntries: nat, key: string, ttl: real, now: real, after: Records, duplicate: bool)
    returns (kept: Records)
    requires key !in records && Checks(records, maxEntries, key, ttl, now, after, duplicate)
    ensures !duplicate && Evicts(records, maxEntries, kept) && after == kept[key := Fresh(ttl, now)]
  {
    assert records - {key} == records;
    kept :| Evicts(records, maxEntries, kept) && after == kept[key := EventRecord(now, 0, ttl, now)];
  }

  /** One request on both engines, with nothing expired: the same verdict, and they go on agreeing. */
  lemma RequestKeepsAgree(
    records: Records, slots: seq<Slot>, maxEntries: nat, ttl: real, before: real, key: string, now: real,
    after: Records, duplicate: bool)
    requires maxEntries >= 1 && |records| <= maxEntries
    requires Agree(records, slots, ttl, before) && before < now && NothingExpired(slots, now)
    requires Checks(records, maxEntries, key, ttl, now, after, duplicate)
    ensures AfterRegister(slots, maxEntries, key, ttl, now).1 == duplicate
    ensures Agree(after, AfterRegister(slots, maxEntries, key, ttl, now).0, ttl, now) && |after| <= maxEntries
  {
    NothingToSweep(slots, now);
    FoundIffPresent(records, slots, ttl, before, key);
    if key in records {
      assert AgreeAt(records, slots[IndexOf(slots, key)], ttl, before);
      HitKeepsAgree(records, slots, ttl, before, key, now);
      SameKeysSameSize(Touched(records, key, now), records);
    } else {
      var kept := RequestOfNewKey(records, maxEntries, key, ttl, now, after, duplicate);
      MissKeepsAgree(records, slots, maxEntries, ttl, before, key, now, kept);
    }
  }

  lemma SizesOfAgreeing(records: Records, slots: seq<Slot>, ttl: real, now: real)
    requires Agree(records, slots, ttl, now)
    ensures |records| == |slots|
  {
    forall i | 0 <= i < |slots|
      ensures slots[i].key in records
    {
      assert AgreeAt(records, slots[i], ttl, now);
    }
    SizesAgree(records, slots);
  }

  datatype Request = Request(key: string, now: real)

  /**
   * A run of both engines on the same requests: the clock strictly increases, and no request finds an expired
   * entry.
   */
  ghost predicate IsRun(
    requests: seq<Request>, maxEntries: nat, ttl: real,
    tables: seq<Records>, verdicts: seq<bool>, dicts: seq<seq<Slot>>, answers: seq<bool>)
  {
    && maxEntries >= 1
    && |tables| == |dicts| == |requests| + 1 && |verdicts| == |answers| == |requests|
    && tables[0] == map[] && dicts[0] == []
    && (forall i :: 0 <= i < |requests| ==>
          BothServe(requests, maxEntries, ttl, tables, verdicts, dicts, answers, i))
  }

  /** The `i`-th request comes later, finds nothing expired, and takes each engine from its `i`-th state to the next. */
  ghost predicate BothServe(
    requests: seq<Request>, maxEntries: nat, ttl: real,
    tables: seq<Records>, verdicts: seq<bool>, dicts: seq<seq<Slot>>, answers: seq<bool>, i: nat)
    requires i < |requests| == |verdicts| == |answers| && |tables| == |dicts| == |requests| + 1
  {
    var r := requests[i];
    && (i > 0 ==> requests[i - 1].now < r.now)
    && NothingExpired(dicts[i], r.now)
    && Checks(tables[i], maxEntries, r.key, ttl, r.now, tables[i + 1], verdicts[i])
    && (dicts[i + 1], answers[i]) == AfterRegister(dicts[i], maxEntries, r.key, ttl, r.now)
  }

  /** What both engines hold when the last request came at `now`. */
  ghost predicate InStep(records: Records, slots: seq<Slot>, maxEntries: nat, ttl: real, now: real)
  {
    |records| <= maxEntries && Agree(records, slots, ttl, now)
  }

  lemma NothingInStep(maxEntries: nat, ttl: real, now: real)
    ensures InStep(map[], [], maxEntries, ttl, now)
  {
  }

  lemma ServingKeepsInStep(
    requests: seq<Request>, maxEntries: nat, ttl: real,
    tables: seq<Records>, verdicts: seq<bool>, dicts: seq<seq<Slot>>, answers: seq<bool>, i: nat, before: real)
    requires maxEntries >= 1 && i < |requests| == |verdicts| == |answers| && |tables| == |dicts| == |requests| + 1
    requires BothServe(requests, maxEntries, ttl, tables, verdicts, dicts, answers, i)
    requires InStep(tables[i], dicts[i], maxEntries, ttl, before) && before < requests[i].now
    ensures verdicts[i] == answers[i] && InStep(tables[i + 1], dicts[i + 1], maxEntries, ttl, requests[i].now)
  {
    var r := requests[i];
    RequestKeepsAgree(tables[i], dicts[i], maxEntries, ttl, before, r.key, r.now, tables[i + 1], verdicts[i]);
  }

  lemma {:induction false} RunKeepsAgree(
    requests: seq<Request>, maxEntries: nat, ttl: real,
    tables: seq<Records>, verdicts: seq<bool>, dicts: seq<seq<Slot>>, answers: seq<bool>, i: nat)
    requires IsRun(requests, maxEntries, ttl, tables, verdicts, dicts, answers) && i < |requests|
    ensures verdicts[i] == answers[i]
    ensures InStep(tables[i + 1], dicts[i + 1], maxEntries, ttl, requests[i].now)
  {
    var before := if i == 0 then requests[0].now - 1.0 else requests[i - 1].now;
    assert BothServe(requests, maxEntries, ttl, tables, verdicts, dicts, answers, i);
    if i == 0 {
      NothingInStep(maxEntries, ttl, before);
    } else {
      RunKeepsAgree(requests, maxEntries, ttl, tables, verdicts, dicts, answers, i - 1);
    }
    ServingKeepsInStep(requests, maxEntries, ttl, tables, verdicts, dicts, answers, i, before);
  }

  /**
   * On every run of any length in which no held entry has expired when a request comes, the two engines give the
   * same verdicts and keep the same keys.
   */
  lemma EnginesAgree(
    requests: seq<Request>, maxEntries: nat, ttl: real,
    tables: seq<Records>, verdicts: seq<bool>, dicts: seq<seq<Slot>>, answers: seq<bool>, i: nat, key: string)
    requires IsRun(requests, maxEntries, ttl, tables, verdicts, dicts, answers) && i < |requests|
    ensures verdicts[i] == answers[i]
    ensures key in tables[i + 1] <==> IndexOf(dicts[i + 1], key) < |dicts[i + 1]|
  {
    RunKeepsAgree(requests, maxEntries, ttl, tables, verdicts, dicts, answers, i);
    FoundIffPresent(tables[i + 1], dicts[i + 1], ttl, requests[i].now, key);
  }

  /** "a" was first seen at 1 and seen again at 10, "b" was first seen at 8; records live for 10. */
  function ExampleRecords(): Records
  {
    map["a" := EventRecord(1.0, 1, 10.0, 10.0), "b" := EventRecord(8.0, 0, 10.0, 8.0)]
  }

  function ExampleSlots(): seq<Slot>
  {
    [Slot("b", 8.0, 18.0), Slot("a", 1.0, 11.0)]
  }

  lemma ExampleAgrees()
    ensures Agree(ExampleRecords(), ExampleSlots(), 10.0, 10.0) && |ExampleRecords()| == 2
  {
    var slots := ExampleSlots();
    assert slots[0].key == "b" && slots[1].key == "a";
    SizesOfAgreeing(ExampleRecords(), slots, 10.0, 10.0);
  }

  /**
   * Once something has expired they need not agree: at 12, with room for two, "a" has expired. For "c" the first
   * engine evicts the live "b", the second sweeps "a" instead; at 13 only the second still knows "b".
   */
  lemma ExpiryMakesEnginesDiffer(afterC: Records, afterB: Records, dupC: bool, dupB: bool)
    requires Checks(ExampleRecords(), 2, "c", 10.0, 12.0, afterC, dupC)
             && Checks(afterC, 2, "b", 10.0, 13.0, afterB, dupB)
    ensures Agree(ExampleRecords(), ExampleSlots(), 10.0, 10.0)
    ensures !dupB
    ensures AfterRegister(AfterRegister(ExampleSlots(), 2, "c", 10.0, 12.0).0, 2, "b", 10.0, 13.0).1
  {
    var records, slots := ExampleRecords(), ExampleSlots();
    ExampleAgrees();
    FirstEngineEvictsB(records, slots, afterC, dupC);
    SecondEngineKeepsB();
  }

  lemma FirstEngineEvictsB(records: Records, slots: seq<Slot>, after: Records, duplicate: bool)
    requires |records| == 2 && "c" !in records && slots != [] && slots[0].key == "b"
             && Agree(records, slots, 10.0, 10.0)
    requires Checks(records, 2, "c", 10.0, 12.0, after, duplicate)
    ensures "b" !in after
  {
    var kept := RequestOfNewKey(records, 2, "c", 10.0, 12.0, after, duplicate);
    var eldest :| IsEldest(records, eldest) && kept == records - {eldest};
    EldestIsFirst(records, slots, 10.0, 10.0, eldest);
  }

  lemma SecondEngineKeepsB()
    ensures AfterRegister(AfterRegister(ExampleSlots(), 2, "c", 10.0, 12.0).0, 2, "b", 10.0, 13.0).1
  {
    var slots := ExampleSlots();
    assert slots[1..] == [slots[1]] && slots[1..][1..] == [];
    assert Unexpired(slots[1..], 12.0) == [];
    assert Unexpired(slots, 12.0) == [slots[0]];
    var slotsC := AfterRegister(slots, 2, "c", 10.0, 12.0).0;
    assert slotsC == [slots[0], Slot("c", 12.0, 22.0)];
    NothingToSweep(slotsC, 13.0);
  }
}
