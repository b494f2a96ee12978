/** Why the eviction loops compute the survivors of the model, and what those
    survivors are. */
module CacheEviction {
  import opened Basics
  import opened CacheModel

  /** `small` holds some of the entries of `big`, unchanged. */
  ghost predicate Part<K, V>(small: map<K, Entry<V>>, big: map<K, Entry<V>>) {
    forall k :: k in small ==> k in big && big[k] == small[k]
  }

  ghost predicate Distinct<K, V>(e: map<K, Entry<V>>) {
    forall j, k :: j in e && k in e && j != k ==> e[j].lastAccess != e[k].lastAccess
  }

  /** `k` is next in eviction order among `from`. */
  ghost predicate IsFirst<K, V>(e: map<K, Entry<V>>, from: set<K>, k: K)
    requires from <= e.Keys
  {
    k in from && forall j :: j in from ==> !Before(e[j], e[k])
  }

  // The total limits.

  /** Part way through the loop: what is left is closed upwards, and whatever is
      gone did not fit. */
  ghost predicate Pruned<K, V>(limits: Limits, e0: map<K, Entry<V>>, e: map<K, Entry<V>>) {
    && Part(e, e0)
    && (forall j, k :: j in e && k in e0 && !Before(e0[k], e0[j]) ==> k in e)
    && (forall k :: k in e0 && k !in e ==> !Fits(limits, Upper(e0, k)))
  }

  lemma UpperIsRest<K, V>(limits: Limits, e0: map<K, Entry<V>>, e: map<K, Entry<V>>, k: K)
    requires Pruned(limits, e0, e) && k in e && IsFirst(e, e.Keys, k)
    ensures Upper(e0, k) == e
  {
    hide Fits;
    var u := Upper(e0, k);
    forall j ensures j in u <==> j in e {
    }
    forall j | j in u ensures u[j] == e[j] {
    }
  }

  lemma PruneStep<K, V>(limits: Limits, e0: map<K, Entry<V>>, e: map<K, Entry<V>>, k: K)
    requires Pruned(limits, e0, e) && Distinct(e0) && !Fits(limits, e) && k in e && IsFirst(e, e.Keys, k)
    ensures Pruned(limits, e0, e - {k})
  {
    hide Fits;
    UpperIsRest(limits, e0, e, k);
    var after := e - {k};
    forall i, j | i in after && j in e0 && !Before(e0[j], e0[i]) ensures j in after {
      assert j in e;
      assert i in e && !Before(e[i], e[k]) && e0[i].lastAccess != e0[k].lastAccess;
    }
  }

  lemma UpperFits<K, V>(limits: Limits, e0: map<K, Entry<V>>, e: map<K, Entry<V>>, k: K)
    requires Pruned(limits, e0, e) && Fits(limits, e) && k in e
    ensures k in e0 && Fits(limits, Upper(e0, k))
  {
    hide ByteSum;
    SumMonotone(Upper(e0, k), e);
  }

  lemma PruneDone<K, V>(limits: Limits, e0: map<K, Entry<V>>, e: map<K, Entry<V>>)
    requires Pruned(limits, e0, e) && Fits(limits, e)
    ensures e == AfterTotal(limits, e0)
  {
    forall k | k in e ensures Fits(limits, Upper(e0, k)) {
      UpperFits(limits, e0, e, k);
    }
    hide Fits, Upper, Before;
    var survivors := AfterTotal(limits, e0);
    forall k ensures k in survivors <==> k in e {
    }
  }

  // The tenant quota.

  ghost predicate QuotaPruned<K, V>(limit: nat, tenant: string, e0: map<K, Entry<V>>, e: map<K, Entry<V>>) {
    && Part(e, e0)
    && (forall k :: k in e0 && e0[k].tenant != tenant ==> k in e)
    && (forall j, k :: j in e && k in e0 && e0[j].tenant == e0[k].tenant == tenant && !Before(e0[k], e0[j]) ==> k in e)
    && (forall k :: k in e0 && k !in e ==> |UpperOfTenant(e0, k)| > limit)
  }

  lemma QuotaUpper<K, V>(limit: nat, tenant: string, e0: map<K, Entry<V>>, e: map<K, Entry<V>>, k: K)
    requires QuotaPruned(limit, tenant, e0, e) && k in e && e[k].tenant == tenant
    requires IsFirst(e, TenantKeys(e, tenant), k)
    ensures UpperOfTenant(e0, k) == TenantKeys(e, tenant)
  {
  }

  lemma QuotaStep<K, V>(limit: nat, tenant: string, e0: map<K, Entry<V>>, e: map<K, Entry<V>>, k: K)
    requires QuotaPruned(limit, tenant, e0, e) && Distinct(e0) && |TenantKeys(e, tenant)| > limit
    requires IsFirst(e, TenantKeys(e, tenant), k)
    ensures QuotaPruned(limit, tenant, e0, e - {k})
  {
    QuotaUpper(limit, tenant, e0, e, k);
    hide UpperOfTenant;
    var after := e - {k};
    forall i, j | i in after && j in e0 && e0[i].tenant == e0[j].tenant == tenant && !Before(e0[j], e0[i])
      ensures j in after
    {
      assert j in e;
      assert i in TenantKeys(e, tenant);
      assert !Before(e[i], e[k]) && e0[i].lastAccess != e0[k].lastAccess;
    }
  }

  lemma QuotaDone<K, V>(limits: Limits, tenant: string, e0: map<K, Entry<V>>, e: map<K, Entry<V>>)
    requires limits.perTenant.Some? && QuotaPruned(limits.perTenant.value, tenant, e0, e)
    requires |TenantKeys(e, tenant)| <= limits.perTenant.value
    ensures e == AfterQuota(limits, e0, tenant)
  {
    forall k | k in e && e0[k].tenant == tenant ensures |UpperOfTenant(e0, k)| <= limits.perTenant.value {
      assert UpperOfTenant(e0, k) <= TenantKeys(e, tenant);
      SubsetCard(UpperOfTenant(e0, k), TenantKeys(e, tenant));
    }
    hide UpperOfTenant, Before, TenantKeys;
    var survivors := AfterQuota(limits, e0, tenant);
    forall k ensures k in survivors <==> k in e {
    }
  }

  lemma NoQuota<K, V>(limits: Limits, tenant: string, e: map<K, Entry<V>>)
    requires limits.perTenant.None?
    ensures AfterQuota(limits, e, tenant) == e
  {
  }

  // The survivors stay within the limits.

  lemma {:induction false} FirstExists<K, V>(e: map<K, Entry<V>>, from: set<K>) returns (k: K)
    requires from <= e.Keys && from != {}
    ensures IsFirst(e, from, k)
  {
    var x :| x in from;
    var rest := from - {x};
    assert from == rest + {x};
    k := x;
    if rest != {} {
      var m := FirstExists(e, rest);
      if Before(e[m], e[x]) { k := m; }
    }
  }

  lemma TotalFits<K, V>(limits: Limits, e: map<K, Entry<V>>)
    ensures Fits(limits, AfterTotal(limits, e)) && Part(AfterTotal(limits, e), e)
  {
    var after := AfterTotal(limits, e);
    if |after| > 0 {
      assert after.Keys != {} by { var k :| k in after; assert k in after.Keys; }
      var k := FirstExists(after, after.Keys);
      SumMonotone(after, Upper(e, k));
    } else {
      assert after == map[];
    }
  }

  lemma QuotaHolds<K, V>(limits: Limits, e: map<K, Entry<V>>, tenant: string)
    requires limits.perTenant.Some?
    ensures |TenantKeys(AfterQuota(limits, e, tenant), tenant)| <= limits.perTenant.value
  {
    var after := AfterQuota(limits, e, tenant);
    var keys := TenantKeys(after, tenant);
    if keys != {} {
      var k := FirstExists(after, keys);
      assert keys <= UpperOfTenant(e, k);
      SubsetCard(keys, UpperOfTenant(e, k));
    }
  }

  lemma TenantKeysMonotone<K, V>(small: map<K, Entry<V>>, big: map<K, Entry<V>>, tenant: string)
    requires Part(small, big)
    ensures |TenantKeys(small, tenant)| <= |TenantKeys(big, tenant)|
  {
    assert TenantKeys(small, tenant) <= TenantKeys(big, tenant);
    SubsetCard(TenantKeys(small, tenant), TenantKeys(big, tenant));
  }

  lemma QuotasAfterInsert<K, V>(limits: Limits, s: State<K, V>, k: K, x: Entry<V>)
    requires QuotasHold(limits, s.entries)
    ensures QuotasHold(limits, AfterTotal(limits, AfterQuota(limits, s.entries[k := x], x.tenant)))
  {
    var placed := s.entries[k := x];
    var mid := AfterQuota(limits, placed, x.tenant);
    var after := AfterTotal(limits, mid);
    TotalFits(limits, mid);
    if limits.perTenant.Some? {
      forall t ensures |TenantKeys(after, t)| <= limits.perTenant.value {
        TenantKeysMonotone(after, mid, t);
        if t == x.tenant {
          QuotaHolds(limits, placed, t);
        } else {
          assert TenantKeys(mid, t) <= TenantKeys(s.entries, t);
          SubsetCard(TenantKeys(mid, t), TenantKeys(s.entries, t));
        }
      }
    }
  }

  lemma StampedPlaced<K, V>(s: State<K, V>, k: K, x: Entry<V>, small: map<K, Entry<V>>)
    requires Stamped(s.entries, s.clock) && x.lastAccess == s.clock + 1
    requires Part(small, s.entries[k := x])
    ensures Stamped(small, s.clock + 1) && Distinct(small)
  {
  }

  lemma StampedTouch<K, V>(s: State<K, V>, k: K)
    requires Stamped(s.entries, s.clock)
    ensures Stamped(Touch(s, k).entries, s.clock + 1)
  {
  }

  lemma TouchKeepsBounds<K, V>(limits: Limits, s: State<K, V>, k: K)
    requires Bounded(limits, s.entries)
    ensures Bounded(limits, Touch(s, k).entries)
  {
    if k in s.entries {
      var after := Touch(s, k).entries;
      SumUpdate(s.entries, k, after[k]);
      SumRemove(s.entries, k);
      RemoveShrinks(s.entries, k);
      if limits.perTenant.Some? {
        forall t ensures |TenantKeys(after, t)| <= limits.perTenant.value {
          assert TenantKeys(after, t) == TenantKeys(s.entries, t);
        }
      }
    }
  }

  lemma PartStaysBounded<K, V>(limits: Limits, small: map<K, Entry<V>>, big: map<K, Entry<V>>, clock: nat)
    requires Part(small, big) && Bounded(limits, big) && Stamped(big, clock)
    ensures Bounded(limits, small) && Stamped(small, clock)
  {
    SumMonotone(small, big);
    if limits.perTenant.Some? {
      forall t ensures |TenantKeys(small, t)| <= limits.perTenant.value {
        TenantKeysMonotone(small, big, t);
      }
    }
  }

  lemma PartTransitive<K, V>(a: map<K, Entry<V>>, b: map<K, Entry<V>>, c: map<K, Entry<V>>)
    requires Part(a, b) && Part(b, c)
    ensures Part(a, c)
  {
  }

  /** While everything fits, an insertion evicts nothing. */
  lemma InsertKeepsWhatFits<K, V>(limits: Limits, s: State<K, V>, k: K, v: V, tenant: string, pinned: bool, bytes: nat)
    requires limits.maxEntries > 0
    requires var placed := Placed(s, k, v, tenant, pinned, bytes);
             && Fits(limits, placed)
             && (limits.perTenant.Some? ==> |TenantKeys(placed, tenant)| <= limits.perTenant.value)
    ensures var after := AfterInsert(limits, s, k, v, tenant, pinned, bytes);
            && after.entries.Keys == s.entries.Keys + {k} && after.entries[k].value == v
            && forall j :: j in s.entries && j != k ==> after.entries[j] == s.entries[j]
  {
    hide ByteSum;
    var placed := Placed(s, k, v, tenant, pinned, bytes);
    forall j | j in placed ensures SurvivesQuota(limits, placed, tenant, j) {
      if placed[j].tenant == tenant { SubsetCard(UpperOfTenant(placed, j), TenantKeys(placed, tenant)); }
    }
    assert AfterQuota(limits, placed, tenant) == placed;
    forall j | j in placed ensures Fits(limits, Upper(placed, j)) { SumMonotone(Upper(placed, j), placed); }
    assert AfterTotal(limits, placed) == placed;
  }

  lemma QuotaKeepsPart<K, V>(limits: Limits, e: map<K, Entry<V>>, tenant: string)
    ensures Part(AfterQuota(limits, e, tenant), e)
  {
  }

  lemma SoundParts<K, V>(limits: Limits, s: State<K, V>)
    requires Sound(limits, s)
    ensures Stamped(s.entries, s.clock) && QuotasHold(limits, s.entries)
  {
  }

  lemma SoundFrom<K, V>(limits: Limits, s: State<K, V>)
    requires Stamped(s.entries, s.clock) && Fits(limits, s.entries) && QuotasHold(limits, s.entries)
    ensures Sound(limits, s)
  {
  }

  /** A look-up keeps the limits and the stamps apart. */
  lemma StampsBelow<K, V>(limits: Limits, s: State<K, V>)
    ensures Sound(limits, s) ==> forall j :: j in s.entries ==> s.entries[j].lastAccess <= s.clock
  {
  }

  lemma SoundTouch<K, V>(limits: Limits, s: State<K, V>, k: K)
    requires Sound(limits, s)
    ensures Sound(limits, Touch(s, k))
  {
    StampedTouch(s, k);
    TouchKeepsBounds(limits, s, k);
  }

  lemma SoundRemove<K, V>(limits: Limits, s: State<K, V>, k: K)
    requires Sound(limits, s)
    ensures Sound(limits, AfterRemove(s, k))
  {
    hide Fits, QuotasHold, Stamped;
    PartStaysBounded(limits, AfterRemove(s, k).entries, s.entries, s.clock);
  }

  /** An insert leaves the cache within every limit, with distinct stamps. */
  lemma InsertSound<K, V>(limits: Limits, s: State<K, V>, k: K, v: V, tenant: string, pinned: bool, bytes: nat)
    requires Sound(limits, s)
    ensures Sound(limits, AfterInsert(limits, s, k, v, tenant, pinned, bytes))
  {
    if limits.maxEntries > 0 {
      var x := Entry(v, tenant, pinned, s.clock + 1, bytes);
      var placed := Placed(s, k, v, tenant, pinned, bytes);
      var mid := AfterQuota(limits, placed, tenant);
      var kept := State(AfterTotal(limits, mid), s.clock + 1);
      assert Touch(kept, k) == AfterInsert(limits, s, k, v, tenant, pinned, bytes);
      assert placed == s.entries[k := x];
      QuotaKeepsPart(limits, placed, tenant);
      hide *;
      SoundParts(limits, s);
      QuotasAfterInsert(limits, s, k, x);
      TotalFits(limits, mid);
      PartTransitive(kept.entries, mid, placed);
      StampedPlaced(s, k, x, kept.entries);
      SoundFrom(limits, kept);
      SoundTouch(limits, kept, k);
    }
  }

  // Who is evicted.

  /** From each tenant the evicted entries are a prefix of the eviction order. */
  ghost predicate EvictsPrefix<K, V>(before: map<K, Entry<V>>, after: map<K, Entry<V>>) {
    && Part(after, before)
    && forall j, k ::
         (j in before && k in before && k !in after && before[j].tenant == before[k].tenant
             && Before(before[j], before[k]))
         ==> j !in after
  }

  lemma PrefixesCompose<K, V>(a: map<K, Entry<V>>, b: map<K, Entry<V>>, c: map<K, Entry<V>>)
    requires EvictsPrefix(a, b) && EvictsPrefix(b, c)
    ensures EvictsPrefix(a, c)
  {
    forall j, k | j in a && k in a && k !in c && a[j].tenant == a[k].tenant && Before(a[j], a[k]) ensures j !in c {
      if k in b && j in b {
        assert a[j] == b[j] && a[k] == b[k];
      }
    }
  }

  lemma QuotaEvictsPrefix<K, V>(limits: Limits, e: map<K, Entry<V>>, tenant: string)
    ensures EvictsPrefix(e, AfterQuota(limits, e, tenant))
  {
    var after := AfterQuota(limits, e, tenant);
    forall j, k | j in e && k in e && k !in after && e[j].tenant == e[k].tenant && Before(e[j], e[k])
      ensures j !in after
    {
      assert UpperOfTenant(e, k) <= UpperOfTenant(e, j);
      SubsetCard(UpperOfTenant(e, k), UpperOfTenant(e, j));
    }
  }

  lemma TotalEvictsPrefix<K, V>(limits: Limits, e: map<K, Entry<V>>)
    ensures EvictsPrefix(e, AfterTotal(limits, e))
    ensures forall j, k :: j in e && k in e && k !in AfterTotal(limits, e) && Before(e[j], e[k]) ==>
              j !in AfterTotal(limits, e)
  {
    var after := AfterTotal(limits, e);
    forall j, k | j in e && k in e && k !in after && Before(e[j], e[k]) ensures j !in after {
      SumMonotone(Upper(e, k), Upper(e, j));
    }
  }

  /** For every insert, what is evicted from each tenant is a prefix of that
      tenant's entries in eviction order: an entry never goes before one of the
      same tenant that is unpinned while it is pinned, or less recently used. */
  lemma InsertEvictsPrefix<K, V>(limits: Limits, s: State<K, V>, k: K, v: V, tenant: string, pinned: bool, bytes: nat)
    ensures var placed := Placed(s, k, v, tenant, pinned, bytes);
            EvictsPrefix(placed, AfterTotal(limits, AfterQuota(limits, placed, tenant)))
  {
    var placed := Placed(s, k, v, tenant, pinned, bytes);
    var mid := AfterQuota(limits, placed, tenant);
    QuotaEvictsPrefix(limits, placed, tenant);
    TotalEvictsPrefix(limits, mid);
    PrefixesCompose(placed, mid, AfterTotal(limits, mid));
  }
}
