/** The cache itself: entries with redundant counters, kept within its limits by
    eviction loops. */
module BoundedCache {
  import opened Basics
  import opened CacheModel
  import opened CacheEviction

  /** The counters agree with the entries. */
  ghost predicate CountsExact<K, V>(e: map<K, Entry<V>>, counts: map<string, nat>) {
    forall t :: |TenantKeys(e, t)| == if t in counts then counts[t] else 0
  }

  function Incremented(counts: map<string, nat>, t: string): map<string, nat> {
    counts[t := (if t in counts then counts[t] else 0) + 1]
  }

  /** `decrement_tenant`: saturating, and a tenant at zero is forgotten. */
  function Decremented(counts: map<string, nat>, t: string): map<string, nat> {
    if t !in counts then counts
    else if counts[t] <= 1 then counts - {t}
    else counts[t := counts[t] - 1]
  }

  lemma KeysAfterRemove<K, V>(e: map<K, Entry<V>>, k: K, t: string)
    requires k in e
    ensures |TenantKeys(e, t)| == |TenantKeys(e - {k}, t)| + if e[k].tenant == t then 1 else 0
  {
    if t == e[k].tenant {
      assert TenantKeys(e, t) == TenantKeys(e - {k}, t) + {k};
    } else {
      assert TenantKeys(e - {k}, t) == TenantKeys(e, t);
    }
  }

  lemma CountsAfterRemove<K, V>(e: map<K, Entry<V>>, counts: map<string, nat>, k: K)
    requires k in e && CountsExact(e, counts)
    ensures CountsExact(e - {k}, Decremented(counts, e[k].tenant))
  {
    hide TenantKeys;
    var after := Decremented(counts, e[k].tenant);
    forall t ensures |TenantKeys(e - {k}, t)| == if t in after then after[t] else 0 {
      KeysAfterRemove(e, k, t);
    }
  }

  lemma CountsAfterAdd<K, V>(e: map<K, Entry<V>>, counts: map<string, nat>, k: K, x: Entry<V>)
    requires k !in e && CountsExact(e, counts)
    ensures CountsExact(e[k := x], Incremented(counts, x.tenant))
  {
    hide TenantKeys;
    var after := Incremented(counts, x.tenant);
    assert e[k := x] - {k} == e;
    forall t ensures |TenantKeys(e[k := x], t)| == if t in after then after[t] else 0 {
      KeysAfterRemove(e[k := x], k, t);
    }
  }

  lemma CountsAfterTouch<K, V>(e: map<K, Entry<V>>, counts: map<string, nat>, k: K, stamp: nat)
    requires k in e && CountsExact(e, counts)
    ensures CountsExact(e[k := e[k].(lastAccess := stamp)], counts)
  {
    var after := e[k := e[k].(lastAccess := stamp)];
    forall t ensures TenantKeys(after, t) == TenantKeys(e, t) {
      assert forall j :: j in TenantKeys(after, t) <==> j in TenantKeys(e, t);
    }
  }

  lemma BytesAfterTouch<K, V>(e: map<K, Entry<V>>, k: K, stamp: nat)
    requires k in e
    ensures ByteSum(e[k := e[k].(lastAccess := stamp)]) == ByteSum(e)
    ensures |e[k := e[k].(lastAccess := stamp)]| == |e|
  {
    hide ByteSum;
    SumUpdate(e, k, e[k].(lastAccess := stamp));
    SumRemove(e, k);
    RemoveShrinks(e, k);
  }

  /** The entries one eviction may choose from. */
  function Candidates<K, V>(e: map<K, Entry<V>>, tenant: Option<string>, allowPinned: bool): set<K> {
    set k | k in e && (tenant.Some? ==> e[k].tenant == tenant.value) && (allowPinned || !e[k].pinned)
  }

  /** `k` is the least recently accessed of `from`. */
  predicate IsOldest<K, V>(e: map<K, Entry<V>>, from: set<K>, k: K)
    requires from <= e.Keys
  {
    k in from && forall j :: j in from ==> e[k].lastAccess <= e[j].lastAccess
  }

  class BoundedGraphCache<K(==), V> {
    const limits: Limits
    var residentBytes: nat
    var clock: nat
    var entries: map<K, Entry<V>>
    var tenantEntries: map<string, nat>

    ghost predicate Exact()
      reads this
    {
      CountsExact(entries, tenantEntries) && residentBytes == ByteSum(entries)
    }

    ghost predicate Valid()
      reads this
    {
      Exact() && Sound(limits, Model())
    }

    function Model(): State<K, V>
      reads this
    {
      State(entries, clock)
    }

    constructor (maxEntries: nat, perTenant: Option<nat>, maxBytes: nat)
      ensures limits == Limits(maxEntries, maxBytes, perTenant)
      ensures Valid() && Model() == State(map[], 0)
    {
      limits := Limits(maxEntries, maxBytes, perTenant);
      residentBytes, clock, entries, tenantEntries := 0, 0, map[], map[];
      new;
      forall t ensures TenantKeys(entries, t) == {} {
      }
    }

    /** Takes one entry out and corrects both counters. */
    method Remove(key: K) returns (r: Option<V>)
      requires Exact()
      modifies this`entries, this`residentBytes, this`tenantEntries
      ensures Exact() && (old(Valid()) ==> Valid())
      ensures Model() == AfterRemove(old(Model()), key)
      ensures entries == old(entries) - {key} && clock == old(clock)
      ensures r == if key in old(entries) then Some(old(entries)[key].value) else None
    {
      hide ByteSum, CountsExact, Sound;
      if key !in entries {
        assert entries - {key} == entries;
        return None;
      }
      if Sound(limits, Model()) { SoundRemove(limits, Model(), key); }
      var entry := entries[key];
      SumRemove(entries, key);
      CountsAfterRemove(entries, tenantEntries, key);
      entries := entries - {key};
      residentBytes := SaturatingSub(residentBytes, entry.bytes);
      DecrementTenant(entry.tenant);
      r := Some(entry.value);
    }

    method DecrementTenant(tenant: string)
      modifies this`tenantEntries
      ensures tenantEntries == Decremented(old(tenantEntries), tenant)
    {
      if tenant in tenantEntries {
        var count := SaturatingSub(tenantEntries[tenant], 1);
        tenantEntries := tenantEntries[tenant := count];
        if count == 0 {
          tenantEntries := tenantEntries - {tenant};
        }
      }
    }

    method Get(key: K) returns (r: Option<V>)
      requires Exact() && clock < U64_MAX
      modifies this`clock, this`entries
      ensures Exact() && (old(Valid()) ==> Valid())
      ensures Model() == Touch(old(Model()), key)
      ensures entries.Keys == old(entries).Keys
      ensures forall j :: j in entries && j != key ==> entries[j] == old(entries)[j]
      ensures key in entries ==> entries[key] == old(entries)[key].(lastAccess := entries[key].lastAccess)
      ensures key in entries && old(Valid()) ==>
                forall j :: j in entries && j != key ==> entries[j].lastAccess < entries[key].lastAccess
      ensures r == if key in old(entries) then Some(old(entries)[key].value) else None
    {
      StampsBelow(limits, Model());
      hide ByteSum, CountsExact, Sound;
      if Sound(limits, Model()) { SoundTouch(limits, Model(), key); }
      clock := SaturatingAdd(clock, 1);
      if key !in entries { return None; }
      CountsAfterTouch(entries, tenantEntries, key, clock);
      BytesAfterTouch(entries, key, clock);
      entries := entries[key := entries[key].(lastAccess := clock)];
      r := Some(entries[key].value);
    }

    /** `filter(..).min_by_key(last_access)`, then removal. */
    method EvictOne(tenant: Option<string>, allowPinned: bool) returns (key: Option<K>)
      requires Exact()
      modifies this`entries, this`residentBytes, this`tenantEntries
      ensures Exact()
      ensures key.None? <==> Candidates(old(entries), tenant, allowPinned) == {}
      ensures key.None? ==> entries == old(entries)
      ensures key.Some? ==> IsOldest(old(entries), Candidates(old(entries), tenant, allowPinned), key.value)
      ensures key.Some? ==> entries == old(entries) - {key.value}
    {
      key := Oldest(Candidates(entries, tenant, allowPinned));
      if key.Some? {
        var _ := Remove(key.value);
      }
    }

    method Oldest(from: set<K>) returns (key: Option<K>)
      requires from <= entries.Keys
      ensures key.None? <==> from == {}
      ensures key.Some? ==> IsOldest(entries, from, key.value)
    {
      key := None;
      var left := from;
      while left != {}
        invariant left <= from
        invariant key.None? ==> left == from
        invariant key.Some? ==> key.value in from
        invariant key.Some? ==> forall j :: j in from - left ==> entries[key.value].lastAccess <= entries[j].lastAccess
        decreases |left|
      {
        var k :| k in left;
        if key.None? || entries[k].lastAccess < entries[key.value].lastAccess {
          key := Some(k);
        }
        left := left - {k};
      }
    }

    /** Evicts the tenant's first entry in eviction order. */
    method EvictOfTenant(tenant: string) returns (key: Option<K>)
      requires Exact() && Distinct(entries)
      modifies this`entries, this`residentBytes, this`tenantEntries
      ensures Exact()
      ensures key.None? <==> TenantKeys(old(entries), tenant) == {}
      ensures key.None? ==> entries == old(entries)
      ensures key.Some? ==> IsFirst(old(entries), TenantKeys(old(entries), tenant), key.value)
      ensures key.Some? ==> entries == old(entries) - {key.value}
    {
      CandidatesOrder(entries, Some(tenant));
      key := EvictOne(Some(tenant), false);
      if key.None? {
        key := EvictOne(Some(tenant), true);
      }
    }

    /** Evicts the first entry of all. */
    method EvictAny() returns (key: Option<K>)
      requires Exact() && Distinct(entries)
      modifies this`entries, this`residentBytes, this`tenantEntries
      ensures Exact()
      ensures key.None? <==> old(entries) == map[]
      ensures key.None? ==> entries == old(entries)
      ensures key.Some? ==> IsFirst(old(entries), old(entries).Keys, key.value)
      ensures key.Some? ==> entries == old(entries) - {key.value}
    {
      CandidatesOrder(entries, None);
      key := EvictOne(None, false);
      if key.None? {
        key := EvictOne(None, true);
      }
    }

    /** Evicts until the tenant is within its quota. The loop cannot run out of
        entries: `gaveUp` is never set. */
    method EnforceTenantQuota(tenant: string) returns (gaveUp: bool)
      requires Exact() && Distinct(entries)
      modifies this`entries, this`residentBytes, this`tenantEntries
      ensures Exact() && !gaveUp
      ensures entries == AfterQuota(limits, old(entries), tenant)
    {
      gaveUp := false;
      if limits.perTenant.None? {
        NoQuota(limits, tenant, entries);
        return;
      }
      var limit := limits.perTenant.value;
      ghost var e0 := entries;
      QuotaStart(limit, tenant, e0);
      hide QuotaPruned, AfterQuota, ByteSum, IsFirst;
      while (if tenant in tenantEntries then tenantEntries[tenant] else 0) > limit
        invariant Exact() && !gaveUp && e0 == old(entries)
        invariant QuotaPruned(limit, tenant, e0, entries) && Distinct(entries)
        decreases |entries|
      {
        ghost var e := entries;
        assert |TenantKeys(e, tenant)| > limit;
        var key := EvictOfTenant(tenant);
        if key.None? {
          gaveUp := true;
          break;
        }
        FirstIsIn(e, TenantKeys(e, tenant), key.value);
        RemoveShrinks(e, key.value);
        QuotaStep(limit, tenant, e0, e, key.value);
      }
      assert |TenantKeys(entries, tenant)| <= limit;
      QuotaDone(limits, tenant, e0, entries);
    }

    /** Evicts until count and bytes are within bounds; it cannot run out either. */
    method EnforceTotalLimit() returns (gaveUp: bool)
      requires Exact() && Distinct(entries)
      modifies this`entries, this`residentBytes, this`tenantEntries
      ensures Exact() && !gaveUp
      ensures entries == AfterTotal(limits, old(entries))
    {
      gaveUp := false;
      ghost var e0 := entries;
      hide AfterTotal, IsFirst, CountsExact, Upper;
      assert Pruned(limits, e0, entries);
      hide Pruned;
      while |entries| > limits.maxEntries || residentBytes > limits.maxBytes
        invariant Exact() && !gaveUp && e0 == old(entries)
        invariant Pruned(limits, e0, entries) && Distinct(entries)
        decreases |entries|
      {
        ghost var e := entries;
        assert !Fits(limits, e);
        var key := EvictAny();
        if key.None? {
          gaveUp := true;
          break;
        }
        FirstIsIn(e, e.Keys, key.value);
        RemoveShrinks(e, key.value);
        PruneStep(limits, e0, e, key.value);
      }
      PruneDone(limits, e0, entries);
    }

    /** Inserts, replacing any entry under the key, then evicts and answers with
        what a look-up finds. */
    method InsertSized(key: K, value: V, tenant: string, pinned: bool, bytes: nat) returns (r: Option<V>)
      requires Valid() && clock + 2 <= U64_MAX && residentBytes + bytes <= U64_MAX
      modifies this`entries, this`residentBytes, this`tenantEntries, this`clock
      ensures Valid()
      ensures Model() == AfterInsert(limits, old(Model()), key, value, tenant, pinned, bytes)
      ensures r == if key in entries && limits.maxEntries > 0 then Some(value) else None
    {
      hide ByteSum, CountsExact, Sound, AfterQuota, AfterTotal, Distinct, Stamped, Touch, AfterInsert;
      if limits.maxEntries == 0 {
        InsertIs(limits, Model(), key, value, tenant, pinned, bytes);
        return None;
      }
      ghost var s0 := Model();
      SoundParts(limits, s0);
      InsertSound(limits, s0, key, value, tenant, pinned, bytes);
      InsertIs(limits, s0, key, value, tenant, pinned, bytes);
      clock := SaturatingAdd(clock, 1);
      var entry := Entry(value, tenant, pinned, clock, bytes);
      Put(key, entry);
      ghost var placed := entries;
      PlacedDistinct(s0, key, entry);
      var gaveUp := EnforceTenantQuota(tenant);
      QuotaDistinct(limits, placed, tenant);
      gaveUp := EnforceTotalLimit();
      SurvivorUnchanged(limits, placed, tenant, key);
      TouchKeys(Model(), key);
      r := Get(key);
    }

    /** The map insertion with its two counters. */
    method Put(key: K, entry: Entry<V>)
      requires Exact() && residentBytes + entry.bytes <= U64_MAX
      modifies this`entries, this`residentBytes, this`tenantEntries
      ensures Exact()
      ensures entries == old(entries)[key := entry]
    {
      hide ByteSum, CountsExact;
      ghost var e0 := entries;
      SumUpdate(e0, key, entry);
      if key in entries {
        var previous := entries[key];
        SumRemove(e0, key);
        CountsAfterRemove(e0, tenantEntries, key);
        residentBytes := SaturatingSub(residentBytes, previous.bytes);
        DecrementTenant(previous.tenant);
      } else {
        assert e0 - {key} == e0;
      }
      CountsAfterAdd(e0 - {key}, tenantEntries, key, entry);
      assert (e0 - {key})[key := entry] == e0[key := entry];
      entries := entries[key := entry];
      residentBytes := SaturatingAdd(residentBytes, entry.bytes);
      tenantEntries := Incremented(tenantEntries, entry.tenant);
    }

    /** Collects the keys to drop, then removes them one by one. */
    method Retain(keep: (K, V) -> bool)
      requires Valid()
      modifies this`entries, this`residentBytes, this`tenantEntries
      ensures Valid()
      ensures Model() == AfterRetain(old(Model()), keep)
      ensures forall k :: k in entries <==> k in old(entries) && keep(k, old(entries)[k].value)
      ensures clock == old(clock) && forall k :: k in entries ==> entries[k] == old(entries)[k]
    {
      hide ByteSum, CountsExact, Fits, QuotasHold, Stamped;
      ghost var e0 := entries;
      var removed := set k | k in entries && !keep(k, entries[k].value);
      var left := removed;
      while left != {}
        invariant Exact() && left <= removed && removed <= e0.Keys && e0 == old(entries)
        invariant entries == e0 - (removed - left)
        decreases |left|
      {
        var k :| k in left;
        RemovalOrder(e0, removed, left, k);
        var _ := Remove(k);
        left := left - {k};
      }
      RetainIsRemoval(old(Model()), keep, removed);
      assert removed - left == removed;
      PartStaysBounded(limits, entries, e0, clock);
    }

    /** The matching entry with the greatest score, if any, looked up. */
    method GetLatestBy(matching: (K, V) -> bool, score: (K, V) -> nat) returns (r: Option<V>, ghost found: Option<K>)
      requires Valid() && clock < U64_MAX
      modifies this`clock, this`entries
      ensures Valid()
      ensures found.None? <==> forall k :: k in old(entries) ==> !matching(k, old(entries)[k].value)
      ensures found.None? ==> r.None? && Model() == old(Model())
      ensures found.Some? ==> && found.value in old(entries)
                              && matching(found.value, old(entries)[found.value].value)
                              && r == Some(old(entries)[found.value].value)
                              && Model() == Touch(old(Model()), found.value)
      ensures found.Some? ==> forall k :: k in old(entries) && matching(k, old(entries)[k].value) ==>
                                score(k, old(entries)[k].value) <= score(found.value, old(entries)[found.value].value)
    {
      hide ByteSum, CountsExact, Fits, QuotasHold, Stamped;
      var candidates := set k | k in entries && matching(k, entries[k].value);
      var best: Option<K> := None;
      var left := candidates;
      while left != {}
        invariant left <= candidates
        invariant best.None? ==> left == candidates
        invariant best.Some? ==> best.value in candidates
        invariant best.Some? ==> forall k :: k in candidates - left ==>
                                   score(k, entries[k].value) <= score(best.value, entries[best.value].value)
        decreases |left|
      {
        var k :| k in left;
        if best.None? || score(k, entries[k].value) >= score(best.value, entries[best.value].value) {
          best := Some(k);
        }
        left := left - {k};
      }
      found := best;
      if best.None? {
        assert forall k :: k in entries && matching(k, entries[k].value) ==> k in candidates;
        return None, None;
      }
      SoundTouch(limits, Model(), best.value);
      r := Get(best.value);
    }
  }

  lemma QuotaDistinct<K, V>(limits: Limits, e: map<K, Entry<V>>, tenant: string)
    requires Distinct(e)
    ensures Distinct(AfterQuota(limits, e, tenant))
  {
  }

  lemma PlacedDistinct<K, V>(s: State<K, V>, k: K, x: Entry<V>)
    requires Stamped(s.entries, s.clock) && x.lastAccess == s.clock + 1
    ensures Distinct(s.entries[k := x])
  {
  }

  lemma TouchKeys<K, V>(s: State<K, V>, k: K)
    ensures Touch(s, k).entries.Keys == s.entries.Keys
  {
  }

  lemma InsertIs<K, V>(limits: Limits, s: State<K, V>, k: K, v: V, tenant: string, pinned: bool, bytes: nat)
    ensures AfterInsert(limits, s, k, v, tenant, pinned, bytes) ==
            if limits.maxEntries == 0 then s
            else
              var placed := s.entries[k := Entry(v, tenant, pinned, s.clock + 1, bytes)];
              Touch(State(AfterTotal(limits, AfterQuota(limits, placed, tenant)), s.clock + 1), k)
  {
    hide AfterQuota, AfterTotal, Touch;
  }

  lemma SurvivorUnchanged<K, V>(limits: Limits, e: map<K, Entry<V>>, tenant: string, k: K)
    requires k in e
    ensures var kept := AfterTotal(limits, AfterQuota(limits, e, tenant));
            k in kept ==> kept[k] == e[k]
  {
  }

  lemma RetainIsRemoval<K, V>(s: State<K, V>, keep: (K, V) -> bool, removed: set<K>)
    requires forall k :: k in removed <==> k in s.entries && !keep(k, s.entries[k].value)
    ensures AfterRetain(s, keep).entries == s.entries - removed
    ensures Part(s.entries - removed, s.entries)
  {
  }

  /** Trying unpinned entries first and pinned ones after finds the first entry
      in eviction order. */
  lemma CandidatesOrder<K, V>(e: map<K, Entry<V>>, tenant: Option<string>)
    requires Distinct(e)
    ensures var all := Candidates(e, tenant, true);
            var unpinned := Candidates(e, tenant, false);
            && (unpinned == {} ==> forall k :: IsOldest(e, all, k) ==> IsFirst(e, all, k))
            && (forall k :: IsOldest(e, unpinned, k) ==> IsFirst(e, all, k))
            && (tenant.None? ==> all == e.Keys)
            && (tenant.Some? ==> all == TenantKeys(e, tenant.value))
  {
    var all := Candidates(e, tenant, true);
    var unpinned := Candidates(e, tenant, false);
    forall k | k in all && e[k].pinned && unpinned == {} && IsOldest(e, all, k) ensures IsFirst(e, all, k) {
      forall j | j in all ensures !Before(e[j], e[k]) { assert j !in unpinned; }
    }
    forall k | k in all && !e[k].pinned ensures k in unpinned { }
  }

  lemma FirstIsIn<K, V>(e: map<K, Entry<V>>, from: set<K>, k: K)
    requires from <= e.Keys && IsFirst(e, from, k)
    ensures k in from && k in e
  {
  }

  lemma QuotaStart<K, V>(limit: nat, tenant: string, e: map<K, Entry<V>>)
    ensures QuotaPruned(limit, tenant, e, e)
  {
  }
}
