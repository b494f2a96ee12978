/** Whole runs of cache operations. */
module CacheRuns {
  import opened Basics
  import opened CacheModel
  import opened CacheEviction

  datatype Op<!K(==), !V> =
    | Insert(key: K, value: V, tenant: string, pinned: bool, bytes: nat)
    | Get(key: K)
    | Remove(key: K)
    | Retain(keep: (K, V) -> bool)

  ghost function Step<K, V>(limits: Limits, s: State<K, V>, op: Op<K, V>): State<K, V> {
    match op
    case Insert(k, v, tenant, pinned, bytes) => AfterInsert(limits, s, k, v, tenant, pinned, bytes)
    case Get(k) => Touch(s, k)
    case Remove(k) => AfterRemove(s, k)
    case Retain(keep) => AfterRetain(s, keep)
  }

  ghost function Run<K, V>(limits: Limits, ops: seq<Op<K, V>>): State<K, V> {
    if ops == [] then State(map[], 0) else Step(limits, Run(limits, ops[..|ops| - 1]), ops[|ops| - 1])
  }

  /** The value a reader may expect under `k`: the last one inserted, unless it
      was removed or dropped since. */
  ghost function Latest<K, V>(ops: seq<Op<K, V>>, k: K): Option<V> {
    if ops == [] then None
    else
      var before := Latest(ops[..|ops| - 1], k);
      match ops[|ops| - 1]
      case Insert(key, v, _, _, _) => if key == k then Some(v) else before
      case Get(_) => before
      case Remove(key) => if key == k then None else before
      case Retain(keep) => if before.Some? && !keep(k, before.value) then None else before
  }

  lemma StepSound<K, V>(limits: Limits, s: State<K, V>, op: Op<K, V>)
    requires Sound(limits, s)
    ensures Sound(limits, Step(limits, s, op))
  {
    hide Fits, QuotasHold, AfterInsert, Touch, Stamped;
    match op
    case Insert(k, v, tenant, pinned, bytes) => InsertSound(limits, s, k, v, tenant, pinned, bytes);
    case Get(k) => SoundTouch(limits, s, k);
    case Remove(k) => SoundRemove(limits, s, k);
    case Retain(keep) => PartStaysBounded(limits, AfterRetain(s, keep).entries, s.entries, s.clock);
  }

  /** In every run the entry, byte and tenant limits hold and the stamps are
      distinct and bounded by the clock. */
  lemma {:induction false} RunSound<K, V>(limits: Limits, ops: seq<Op<K, V>>)
    ensures Sound(limits, Run(limits, ops))
  {
    if ops == [] {
      var s := Run(limits, ops);
      assert forall t :: TenantKeys(s.entries, t) == {};
    } else {
      RunSound(limits, ops[..|ops| - 1]);
      StepSound(limits, Run(limits, ops[..|ops| - 1]), ops[|ops| - 1]);
    }
  }

  /** Nothing appears under a key by itself. */
  lemma InsertValues<K, V>(limits: Limits, s: State<K, V>, k: K, v: V, tenant: string, pinned: bool, bytes: nat, j: K)
    requires limits.maxEntries > 0
    ensures var after := AfterInsert(limits, s, k, v, tenant, pinned, bytes);
            && (k in after.entries ==> after.entries[k].value == v)
            && (j in after.entries && j != k ==> j in s.entries && after.entries[j] == s.entries[j])
  {
    var placed := Placed(s, k, v, tenant, pinned, bytes);
    var mid := AfterQuota(limits, placed, tenant);
    QuotaKeepsPart(limits, placed, tenant);
    TotalFits(limits, mid);
    PartTransitive(AfterTotal(limits, mid), mid, placed);
    hide AfterQuota, AfterTotal;
  }

  /** A look-up never finds anything but the last value inserted under its key,
      and nothing after a removal. */
  lemma {:induction false} FindsLatest<K, V>(limits: Limits, ops: seq<Op<K, V>>, k: K)
    ensures k in Run(limits, ops).entries ==> Latest(ops, k) == Some(Run(limits, ops).entries[k].value)
  {
    if limits.maxEntries == 0 {
      RunSound(limits, ops);
      assert |Run(limits, ops).entries| == 0;
    } else if ops != [] {
      var before := ops[..|ops| - 1];
      FindsLatest(limits, before, k);
      hide AfterInsert;
      var op := ops[|ops| - 1];
      if op.Insert? {
        InsertValues(limits, Run(limits, before), op.key, op.value, op.tenant, op.pinned, op.bytes, k);
      }
    }
  }

  // Recency.

  /** When `k` was last inserted or looked up, counted from one; zero if never. */
  function LastUse<K, V>(ops: seq<Op<K, V>>, k: K): nat {
    if ops == [] then 0
    else
      var op := ops[|ops| - 1];
      if (op.Insert? || op.Get?) && op.key == k then |ops| else LastUse(ops[..|ops| - 1], k)
  }

  lemma {:induction false} LastUseBound<K, V>(ops: seq<Op<K, V>>, k: K)
    ensures LastUse(ops, k) <= |ops|
  {
    if ops != [] { LastUseBound(ops[..|ops| - 1], k); }
  }

  /** An entry that outlives an operation on another key is untouched by it; the
      key of an insertion or a look-up gets a stamp above the clock. */
  lemma StepStamps<K, V>(limits: Limits, s: State<K, V>, op: Op<K, V>, j: K)
    requires limits.maxEntries > 0 && j in Step(limits, s, op).entries
    ensures if (op.Insert? || op.Get?) && op.key == j then Step(limits, s, op).entries[j].lastAccess > s.clock
            else j in s.entries && Step(limits, s, op).entries[j].lastAccess == s.entries[j].lastAccess
  {
    if op.Insert? {
      InsertValues(limits, s, op.key, op.value, op.tenant, op.pinned, op.bytes, j);
      hide AfterQuota, AfterTotal;
    }
  }

  lemma LiveMeansRoom<K, V>(limits: Limits, ops: seq<Op<K, V>>, k: K)
    requires k in Run(limits, ops).entries
    ensures limits.maxEntries > 0 && ops != []
  {
    RunSound(limits, ops);
    hide Step;
    assert |Run(limits, ops).entries| <= limits.maxEntries;
  }

  /** Among live entries stamps order as the last uses do. */
  lemma {:induction false} StampsOrderUses<K, V>(limits: Limits, ops: seq<Op<K, V>>, j: K, k: K)
    requires j in Run(limits, ops).entries && k in Run(limits, ops).entries
    ensures var e := Run(limits, ops).entries;
            e[j].lastAccess < e[k].lastAccess <==> LastUse(ops, j) < LastUse(ops, k)
  {
    LiveMeansRoom(limits, ops, j);
    if j != k {
      var before, op := ops[..|ops| - 1], ops[|ops| - 1];
      var s := Run(limits, before);
      RunSound(limits, before);
      StepStamps(limits, s, op, j);
      StepStamps(limits, s, op, k);
      LastUseBound(before, j);
      LastUseBound(before, k);
      hide Step;
      if j in s.entries && k in s.entries { StampsOrderUses(limits, before, j, k); }
    }
  }

  /** Of two live entries of one tenant, an insertion under a third key never keeps
      the unpinned one and evicts the pinned one, nor, when they are alike, keeps
      the one unused for longer and evicts the other. */
  lemma LongestUnusedGoesFirst<K, V>(limits: Limits, ops: seq<Op<K, V>>, op: Op<K, V>, j: K, k: K)
    requires op.Insert? && op.key != j && op.key != k
    requires var e := Run(limits, ops).entries;
             && j in e && k in e && e[j].tenant == e[k].tenant
             && if e[j].pinned == e[k].pinned then LastUse(ops, j) < LastUse(ops, k) else e[k].pinned
    requires k !in Run(limits, ops + [op]).entries
    ensures j !in Run(limits, ops + [op]).entries
  {
    LiveMeansRoom(limits, ops, j);
    StampsOrderUses(limits, ops, j, k);
    var s := Run(limits, ops);
    assert (ops + [op])[..|ops|] == ops;
    InsertEvictsPrefix(limits, s, op.key, op.value, op.tenant, op.pinned, op.bytes);
    InsertLeaves(limits, s, op, j);
    InsertLeaves(limits, s, op, k);
    hide AfterQuota, AfterTotal, AfterInsert, Run;
  }

  lemma InsertLeaves<K, V>(limits: Limits, s: State<K, V>, op: Op<K, V>, j: K)
    requires limits.maxEntries > 0 && op.Insert? && op.key != j
    ensures var placed := Placed(s, op.key, op.value, op.tenant, op.pinned, op.bytes);
            && (j in Step(limits, s, op).entries <==> j in AfterTotal(limits, AfterQuota(limits, placed, op.tenant)))
            && (j in s.entries ==> j in placed && placed[j] == s.entries[j])
  {
    hide AfterQuota, AfterTotal;
  }
}
