/** What the bounded cache holds after each operation, without its counters and
    without its eviction loops. */
module CacheModel {
  import opened Basics

  datatype Entry<V> = Entry(value: V, tenant: string, pinned: bool, lastAccess: nat, bytes: nat)

  datatype Limits = Limits(maxEntries: nat, maxBytes: nat, perTenant: Option<nat>)

  datatype State<K(==), V> = State(entries: map<K, Entry<V>>, clock: nat)

  /** Eviction order: unpinned before pinned, then least recently accessed. */
  predicate Before<V>(a: Entry<V>, b: Entry<V>) {
    (!a.pinned && b.pinned) || (a.pinned == b.pinned && a.lastAccess < b.lastAccess)
  }

  ghost function TenantKeys<K, V>(e: map<K, Entry<V>>, tenant: string): set<K> {
    set k | k in e && e[k].tenant == tenant
  }

  ghost function Pick<K, V>(e: map<K, V>): (k: K)
    requires |e| > 0
    ensures k in e
  {
    var k :| k in e;
    k
  }

  /** The bytes of all entries together. */
  ghost function ByteSum<K, V>(e: map<K, Entry<V>>): nat
    decreases |e|
  {
    if |e| == 0 then 0
    else
      var k := Pick(e);
      RemoveShrinks(e, k);
      e[k].bytes + ByteSum(e - {k})
  }

  ghost predicate Fits<K, V>(limits: Limits, e: map<K, Entry<V>>) {
    |e| <= limits.maxEntries && ByteSum(e) <= limits.maxBytes
  }

  /** The entries that outlast `k` in eviction order, `k` among them. */
  ghost function Upper<K, V>(e: map<K, Entry<V>>, k: K): map<K, Entry<V>>
    requires k in e
  {
    map j | j in e && !Before(e[j], e[k]) :: e[j]
  }

  ghost function UpperOfTenant<K, V>(e: map<K, Entry<V>>, k: K): set<K>
    requires k in e
  {
    set j | j in e && e[j].tenant == e[k].tenant && !Before(e[j], e[k])
  }

  /** Survivors of the tenant quota: those of the tenant that are among its last
      `limit` in eviction order, and everybody else. */
  ghost predicate SurvivesQuota<K, V>(limits: Limits, e: map<K, Entry<V>>, tenant: string, k: K)
    requires k in e
  {
    limits.perTenant.Some? && e[k].tenant == tenant ==> |UpperOfTenant(e, k)| <= limits.perTenant.value
  }

  ghost function AfterQuota<K, V>(limits: Limits, e: map<K, Entry<V>>, tenant: string): map<K, Entry<V>> {
    map k | k in e && SurvivesQuota(limits, e, tenant, k) :: e[k]
  }

  /** Survivors of the total limits: those that fit together with everything
      that outlasts them. */
  ghost function AfterTotal<K, V>(limits: Limits, e: map<K, Entry<V>>): map<K, Entry<V>> {
    map k | k in e && Fits(limits, Upper(e, k)) :: e[k]
  }

  function Touch<K, V>(s: State<K, V>, k: K): State<K, V> {
    State(if k in s.entries then s.entries[k := s.entries[k].(lastAccess := s.clock + 1)] else s.entries, s.clock + 1)
  }

  function Placed<K, V>(s: State<K, V>, k: K, v: V, tenant: string, pinned: bool, bytes: nat): map<K, Entry<V>> {
    s.entries[k := Entry(v, tenant, pinned, s.clock + 1, bytes)]
  }

  ghost function AfterInsert<K, V>(limits: Limits, s: State<K, V>, k: K, v: V, tenant: string, pinned: bool,
                                   bytes: nat): State<K, V>
  {
    if limits.maxEntries == 0 then s
    else
      var placed := Placed(s, k, v, tenant, pinned, bytes);
      Touch(State(AfterTotal(limits, AfterQuota(limits, placed, tenant)), s.clock + 1), k)
  }

  function AfterRemove<K, V>(s: State<K, V>, k: K): State<K, V> { s.(entries := s.entries - {k}) }

  function AfterRetain<K, V>(s: State<K, V>, keep: (K, V) -> bool): State<K, V> {
    s.(entries := map k | k in s.entries && keep(k, s.entries[k].value) :: s.entries[k])
  }

  // What every reachable state satisfies.

  /** Stamps tell entries apart and never run ahead of the clock. */
  ghost predicate Stamped<K, V>(e: map<K, Entry<V>>, clock: nat) {
    && (forall k :: k in e ==> e[k].lastAccess <= clock)
    && (forall j, k :: j in e && k in e && j != k ==> e[j].lastAccess != e[k].lastAccess)
  }

  ghost predicate QuotasHold<K, V>(limits: Limits, e: map<K, Entry<V>>) {
    limits.perTenant.Some? ==> forall tenant :: |TenantKeys(e, tenant)| <= limits.perTenant.value
  }

  ghost predicate Bounded<K, V>(limits: Limits, e: map<K, Entry<V>>) {
    Fits(limits, e) && QuotasHold(limits, e)
  }

  ghost predicate Sound<K, V>(limits: Limits, s: State<K, V>) {
    Stamped(s.entries, s.clock) && Bounded(limits, s.entries)
  }

  // Sums and sizes.

  lemma {:induction false} SumRemove<K, V>(e: map<K, Entry<V>>, k: K)
    requires k in e
    ensures ByteSum(e) == e[k].bytes + ByteSum(e - {k})
    decreases |e|
  {
    var m := Pick(e);
    assert ByteSum(e) == e[m].bytes + ByteSum(e - {m});
    hide ByteSum;
    if m != k {
      RemoveShrinks(e, m);
      RemoveShrinks(e, k);
      SumRemove(e - {m}, k);
      SumRemove(e - {k}, m);
      assert e - {m} - {k} == e - {k} - {m};
    }
  }

  lemma SumUpdate<K, V>(e: map<K, Entry<V>>, k: K, x: Entry<V>)
    ensures ByteSum(e[k := x]) == x.bytes + ByteSum(e - {k})
    ensures |e[k := x]| == |e - {k}| + 1
  {
    SumRemove(e[k := x], k);
    RemoveShrinks(e[k := x], k);
    assert e[k := x] - {k} == e - {k};
  }

  /** Fewer entries, fewer bytes. */
  lemma {:induction false} SumMonotone<K, V>(small: map<K, Entry<V>>, big: map<K, Entry<V>>)
    requires forall k :: k in small ==> k in big && big[k] == small[k]
    ensures ByteSum(small) <= ByteSum(big) && |small| <= |big|
    decreases |big|
  {
    if |big| > 0 {
      var k :| k in big;
      RemoveShrinks(big, k);
      SumRemove(big, k);
      if k in small {
        RemoveShrinks(small, k);
        SumRemove(small, k);
        SumMonotone(small - {k}, big - {k});
      } else {
        SumMonotone(small, big - {k});
      }
    } else {
      assert small == map[];
    }
  }
}
