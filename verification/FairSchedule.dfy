/** Walking a registry of `n` scopes cyclically. */
module CyclicOrder {

  lemma ModUnique(x: int, n: nat, q: int, r: int)
    requires n > 0 && x == n * q + r && 0 <= r < n
    ensures x % n == r
  {
    var d := x / n - q;
    assert x == n * (x / n) + x % n;
    assert n * (x / n) - n * q == n * d;
    assert d >= 1 ==> n * d >= n;
    assert d <= -1 ==> n * d + n <= 0;
  }

  /** Steps compose. */
  lemma ModAdd(x: nat, o: nat, n: nat)
    requires n > 0
    ensures (x % n + o) % n == (x + o) % n
  {
    var r := (x % n + o) % n;
    var q := (x % n + o) / n;
    assert x + o == n * (x / n) + (x % n + o);
    assert x % n + o == n * q + r;
    assert n * (x / n) + n * q == n * (x / n + q);
    ModUnique(x + o, n, x / n + q, r);
  }

  /** The position `o` steps on from `s`. */
  function Around(n: nat, s: nat, o: nat): (p: nat)
    requires n > 0
    ensures p < n
  {
    (s + o) % n
  }

  function Below(n: nat): (r: set<nat>)
    ensures forall p :: p in r <==> 0 <= p < n
  {
    if n == 0 then {} else Below(n - 1) + {n - 1}
  }

  lemma AroundAround(n: nat, s: nat, a: nat, b: nat)
    requires n > 0
    ensures Around(n, Around(n, s, a), b) == Around(n, s, a + b)
  {
    ModAdd(s + a, b, n);
    assert (s + a) + b == s + (a + b);
  }

  /** One lap at most: the position without division. */
  lemma ModLap(s: nat, o: nat, n: nat)
    requires s < n && o <= n
    ensures (s + o) % n == if s + o < n then s + o else s + o - n
  {
    if s + o < n { ModUnique(s + o, n, 0, s + o); } else { ModUnique(s + o, n, 1, s + o - n); }
  }

  /** Offsets less than a lap apart reach different positions. */
  lemma ModDistinct(x: nat, a: nat, b: nat, n: nat)
    requires a < b < a + n
    ensures (x + a) % n != (x + b) % n
  {
    var r := (x + a) % n;
    ModAdd(x + a, b - a, n);
    assert (x + a) + (b - a) == x + b;
    ModLap(r, b - a, n);
  }

  /** Every position is reached from `x` within one lap. */
  lemma ModReaches(x: nat, p: nat, n: nat) returns (o: nat)
    requires p < n
    ensures o < n && (x + o) % n == p && Around(n, x, o) == p
  {
    var r := x % n;
    o := if r <= p then p - r else p - r + n;
    ModAdd(x, o, n);
    ModLap(r, o, n);
  }
}

/** The registry snapshot an indexer holds: the scopes' `Display` names, in the
    order of the scopes themselves, searched by name. */
module ScopeRegistry {
  import opened Basics
  import Lexicographic

  /** The halving loop of `binary_search_by` over `size` names from `base`. */
  function Descend(names: seq<string>, target: string, base: nat, size: nat): (r: nat)
    requires 1 <= size && base + size <= |names|
    ensures base <= r < base + size
    decreases size
  {
    if size == 1 then base
    else
      var mid := base + size / 2;
      Descend(names, target, if Lexicographic.Less(target, names[mid]) then base else mid, size - size / 2)
  }

  /** Where the search finds `target`; only an exact match is an answer. */
  function Search(names: seq<string>, target: string): (r: Option<nat>)
    ensures r.Some? ==> r.value < |names| && names[r.value] == target
  {
    if names == [] then None
    else
      var p := Descend(names, target, 0, |names|);
      if names[p] == target then Some(p) else None
  }

  method BinarySearch(names: seq<string>, target: string) returns (r: Option<nat>)
    ensures r == Search(names, target)
  {
    if |names| == 0 { return None; }
    var size, base := |names|, 0;
    while size > 1
      invariant 1 <= size && base + size <= |names|
      invariant Descend(names, target, 0, |names|) == Descend(names, target, base, size)
      decreases size
    {
      var half := size / 2;
      var mid := base + half;
      base := if Lexicographic.Less(target, names[mid]) then base else mid;
      size := size - half;
    }
    r := if names[base] == target then Some(base) else None;
  }

  ghost predicate StrictlySorted(names: seq<string>) {
    forall i, j :: 0 <= i < j < |names| ==> Lexicographic.Less(names[i], names[j])
  }

  lemma SortedNoDup(names: seq<string>)
    requires StrictlySorted(names)
    ensures NoDup(names)
  {
    forall i, j | 0 <= i < j < |names| ensures names[i] != names[j] {
      Lexicographic.Trichotomy(names[i], names[j]);
    }
  }

  lemma {:induction false} DescendSorted(names: seq<string>, p: nat, base: nat, size: nat)
    requires StrictlySorted(names) && base + size <= |names| && base <= p < base + size
    ensures Descend(names, names[p], base, size) == p
    decreases size
  {
    hide Lexicographic.Less;
    if size > 1 {
      var mid := base + size / 2;
      if p < mid {
        DescendSorted(names, p, base, size - size / 2);
      } else {
        Lexicographic.Irreflexive(names[p]);
        if p > mid {
          Lexicographic.Trichotomy(names[p], names[mid]);
        }
        DescendSorted(names, p, mid, size - size / 2);
      }
    }
  }

  /** Over strictly sorted names the search finds exactly the registered ones. */
  lemma SearchSorted(names: seq<string>, p: nat)
    requires StrictlySorted(names) && p < |names|
    ensures Search(names, names[p]) == Some(p)
  {
    DescendSorted(names, p, 0, |names|);
  }

  /** What fair scheduling needs of the search: every scope but the last finds
      itself. (Losing the last one restarts at the front, which is where the
      walk goes next anyway.) */
  ghost predicate Searchable(names: seq<string>) {
    forall p :: 0 <= p < |names| - 1 ==> Search(names, names[p]) == Some(p)
  }

  lemma SortedIsSearchable(names: seq<string>)
    requires StrictlySorted(names)
    ensures Searchable(names)
  {
    forall p | 0 <= p < |names| - 1 ensures Search(names, names[p]) == Some(p) {
      SearchSorted(names, p);
    }
  }

  /** The first scope of the next fair slice. */
  function StartIndex(names: seq<string>, cursor: Option<string>): (r: nat)
    requires names != []
    ensures r < |names|
  {
    var position := if cursor.Some? then Search(names, cursor.value) else None;
    match position
    case None => 0
    case Some(p) => (p + 1) % |names|
  }

  lemma StartAfter(names: seq<string>, p: nat)
    requires Searchable(names) && NoDup(names) && p < |names|
    ensures StartIndex(names, Some(names[p])) == (p + 1) % |names|
  {
    hide Descend, Search;
    var found := Search(names, names[p]);
    if found.None? {
      assert p == |names| - 1;
    } else {
      assert names[found.value] == names[p];
    }
  }
}

/** The fair slice of a cycle and what a run of cycles visits. */
module FairSchedule {
  import opened Basics
  import opened CyclicOrder
  import opened ScopeRegistry
  import Lexicographic

  const HOT_SCOPE_BUDGET_DIVISOR: nat := 4

  /** How many recently built scopes a cycle may recheck out of turn. */
  function HotBudget(scopesPerCycle: nat, concurrency: nat): (r: nat)
    requires scopesPerCycle >= 1
    ensures r <= scopesPerCycle - 1 && r <= concurrency && 4 * r <= Max(scopesPerCycle, 4)
    ensures r == scopesPerCycle - 1 || r == concurrency || 4 * (r + 1) > scopesPerCycle
    ensures scopesPerCycle > 1 && concurrency > 0 ==> r > 0
  {
    if scopesPerCycle == 1 then 0
    else Min(Min(Max(scopesPerCycle / HOT_SCOPE_BUDGET_DIVISOR, 1), concurrency), scopesPerCycle - 1)
  }

  function SliceLen(n: nat, k: nat): nat { if k < n then k else n }

  /** The positions a cycle with budget `k` visits from `start`. */
  function FairSlice(n: nat, start: nat, k: nat): (r: seq<nat>)
    requires n > 0
    ensures |r| == SliceLen(n, k)
    ensures forall o :: 0 <= o < |r| ==> r[o] == Around(n, start, o)
  {
    seq(SliceLen(n, k), o requires 0 <= o => Around(n, start, o))
  }

  /** The slice-building loop. */
  method CollectSlice(n: nat, start: nat, coldBudget: nat) returns (scopes: seq<nat>)
    requires n > 0 && coldBudget > 0
    ensures scopes == FairSlice(n, start, coldBudget)
    ensures |scopes| == Min(n, coldBudget) && forall o :: 0 <= o < |scopes| ==> scopes[o] == (start + o) % n
  {
    scopes := [];
    for offset := 0 to n
      invariant scopes == FairSlice(n, start, offset) && |scopes| == offset < coldBudget
    {
      scopes := scopes + [Around(n, start, offset)];
      if |scopes| == coldBudget { return; }
    }
  }

  /** `retain`: the hot scopes outside the fair slice, in their order. */
  function Outside(hot: seq<nat>, fair: seq<nat>): (r: seq<nat>)
    ensures forall h :: h in r <==> h in hot && h !in fair
    ensures |r| <= |hot|
  {
    if hot == [] then []
    else
      var front, last := hot[..|hot| - 1], hot[|hot| - 1];
      assert hot == front + [last];
      Outside(front, fair) + if last in fair then [] else [last]
  }

  lemma {:induction false} OutsideNoDup(hot: seq<nat>, fair: seq<nat>)
    requires NoDup(hot)
    ensures NoDup(Outside(hot, fair))
  {
    if hot != [] {
      var front, last := hot[..|hot| - 1], hot[|hot| - 1];
      OutsideNoDup(front, fair);
      assert last !in front;
    }
  }

  lemma ApartNoDup(a: seq<nat>, b: seq<nat>)
    requires NoDup(a) && NoDup(b) && forall h :: h in a ==> h !in b
    ensures NoDup(a + b)
  {
    forall i, j | 0 <= i < j < |a + b| ensures (a + b)[i] != (a + b)[j] {
      if i < |a| && |a| <= j {
        assert a[i] in a && b[j - |a|] in b;
      }
    }
  }

  /** A cycle's plan: the fair slice in order, and the hot scopes that are not
      already in it. No scope is planned twice. */
  method PlanCycle(names: seq<string>, cursor: Option<string>, scopesPerCycle: nat, concurrency: nat, hot: seq<nat>)
    returns (fair: seq<nat>, rechecks: seq<nat>)
    requires names != [] && 1 <= concurrency <= scopesPerCycle
    requires |hot| <= HotBudget(scopesPerCycle, concurrency) && NoDup(hot)
    ensures fair == FairSlice(|names|, StartIndex(names, cursor), scopesPerCycle - |hot|)
    ensures rechecks == Outside(hot, fair)
    ensures fair != [] && NoDup(rechecks + fair) && |fair| + |rechecks| <= scopesPerCycle
    ensures forall h :: h in rechecks <==> h in hot && h !in fair
  {
    var n := |names|;
    var start := 0;
    if cursor.Some? {
      var position := BinarySearch(names, cursor.value);
      if position.Some? {
        start := (position.value + 1) % n;
      }
    }
    fair := CollectSlice(n, start, scopesPerCycle - |hot|);
    forall i, j | 0 <= i < j < |fair| ensures fair[i] != fair[j] {
      ModDistinct(start, i, j, n);
    }
    rechecks := [];
    for i := 0 to |hot|
      invariant rechecks == Outside(hot[..i], fair)
    {
      assert hot[..i + 1][..i] == hot[..i];
      if hot[i] !in fair {
        rechecks := rechecks + [hot[i]];
      }
    }
    assert hot[..|hot|] == hot;
    OutsideNoDup(hot, fair);
    ApartNoDup(rechecks, fair);
  }

  // Runs of cycles without a race.

  /** The cursor after a slice of `len` scopes from `start`. */
  function CursorAfter(names: seq<string>, cursor: Option<string>, len: nat): (r: Option<string>)
    requires names != []
  {
    if len == 0 then cursor
    else Some(names[Around(|names|, StartIndex(names, cursor), len - 1)])
  }

  /** The fair visits of successive cycles with the given budgets. */
  ghost function Visits(names: seq<string>, cursor: Option<string>, budgets: seq<nat>): seq<nat>
    requires names != []
    decreases |budgets|
  {
    if budgets == [] then []
    else
      var n, k := |names|, budgets[0];
      FairSlice(n, StartIndex(names, cursor), k)
      + Visits(names, CursorAfter(names, cursor, SliceLen(n, k)), budgets[1..])
  }

  lemma NextStart(names: seq<string>, cursor: Option<string>, len: nat)
    requires names != [] && Searchable(names) && NoDup(names)
    ensures StartIndex(names, CursorAfter(names, cursor, len)) == Around(|names|, StartIndex(names, cursor), len)
  {
    hide Search, StartIndex, Searchable, NoDup;
    var n := |names|;
    var start := StartIndex(names, cursor);
    ModLap(start, 0, n);
    if len > 0 {
      StartAfter(names, (start + (len - 1)) % n);
      ModAdd(start + (len - 1), 1, n);
    }
  }

  /** However the budgets vary, the visits are one unbroken cyclic walk. */
  lemma {:induction false} VisitsAreCyclic(names: seq<string>, cursor: Option<string>, budgets: seq<nat>, m: nat)
    requires names != [] && Searchable(names) && NoDup(names)
    requires m < |Visits(names, cursor, budgets)|
    ensures Visits(names, cursor, budgets)[m] == Around(|names|, StartIndex(names, cursor), m)
    decreases |budgets|
  {
    hide Search, Descend, StartIndex, CursorAfter, FairSlice, Searchable, NoDup, Around;
    if budgets != [] {
      var n := |names|;
      var start := StartIndex(names, cursor);
      var len := SliceLen(n, budgets[0]);
      var first := FairSlice(n, start, budgets[0]);
      var rest := Visits(names, CursorAfter(names, cursor, len), budgets[1..]);
      assert Visits(names, cursor, budgets) == first + rest;
      if m >= len {
        var after := CursorAfter(names, cursor, len);
        NextStart(names, cursor, len);
        VisitsAreCyclic(names, after, budgets[1..], m - len);
        assert rest[m - len] == Around(n, StartIndex(names, after), m - len);
        AroundAround(n, start, len, m - len);
      }
    }
  }

  /** Every scope occurs exactly once among the `n` entries of `v` from `from`. */
  ghost predicate EachOnce(v: seq<nat>, from: nat, n: nat) {
    && from + n <= |v|
    && Elems(v[from..from + n]) == Below(n)
    && NoDup(v[from..from + n])
  }

  /** No starvation: any `n` consecutive fair visits reach every scope exactly
      once. */
  lemma EveryScopeOnce(names: seq<string>, cursor: Option<string>, budgets: seq<nat>, from: nat)
    requires names != [] && Searchable(names) && NoDup(names)
    requires from + |names| <= |Visits(names, cursor, budgets)|
    ensures EachOnce(Visits(names, cursor, budgets), from, |names|)
  {
    hide Visits, StartIndex, Search, Searchable;
    var n, start := |names|, StartIndex(names, cursor);
    var v := Visits(names, cursor, budgets);
    var w := v[from..from + n];
    forall m | 0 <= m < n ensures w[m] == (start + from + m) % n {
      VisitsAreCyclic(names, cursor, budgets, from + m);
      assert start + (from + m) == start + from + m;
    }
    LapOnce(start + from, w);
  }

  lemma LapOnce(x: nat, w: seq<nat>)
    requires w != [] && forall m :: 0 <= m < |w| ==> w[m] == (x + m) % |w|
    ensures Elems(w) == Below(|w|) && NoDup(w)
  {
    var n := |w|;
    forall p: nat | p < n ensures p in w {
      var o := ModReaches(x, p, n);
      assert w[o] == p;
    }
    forall m, k | 0 <= m < k < n ensures w[m] != w[k] {
      ModDistinct(x, m, k, n);
    }
  }

  // The converse: a scope the search loses starves the end of the registry.

  ghost function Ones(m: nat): seq<nat> { seq(m, i => 1) }

  lemma TrapHolds(names: seq<string>, p: nat, cursor: Option<string>)
    requires names != [] && NoDup(names) && p < |names| - 1 && Search(names, names[p]) != Some(p)
    requires StartIndex(names, cursor) <= p
    ensures StartIndex(names, CursorAfter(names, cursor, 1)) <= p
    ensures Around(|names|, StartIndex(names, cursor), 0) == StartIndex(names, cursor)
  {
    hide Search;
    var n, start := |names|, StartIndex(names, cursor);
    ModLap(start, 0, n);
    var found := Search(names, names[start]);
    if found.Some? {
      assert found.value == start && start < p;
      ModLap(start, 1, n);
    }
  }

  /** Starting in front of a lost scope, a one-scope budget never gets past it. */
  lemma {:induction false} LostScopeTraps(names: seq<string>, p: nat, cursor: Option<string>, m: nat)
    requires names != [] && NoDup(names) && p < |names| - 1 && Search(names, names[p]) != Some(p)
    requires StartIndex(names, cursor) <= p
    ensures |Visits(names, cursor, Ones(m))| == m
    ensures forall i :: 0 <= i < m ==> Visits(names, cursor, Ones(m))[i] <= p
    decreases m
  {
    hide Search, StartIndex, CursorAfter, NoDup, FairSlice, Around;
    if m > 0 {
      var start := StartIndex(names, cursor);
      assert Ones(m)[0] == 1 && Ones(m)[1..] == Ones(m - 1);
      TrapHolds(names, p, cursor);
      LostScopeTraps(names, p, CursorAfter(names, cursor, 1), m - 1);
    }
  }

  /** Every run of cycles visits every scope once per lap. */
  ghost predicate Fair(names: seq<string>)
    requires names != []
  {
    forall cursor: Option<string>, budgets: seq<nat>, from: nat ::
      from + |names| <= |Visits(names, cursor, budgets)| ==> EachOnce(Visits(names, cursor, budgets), from, |names|)
  }

  /** Fairness holds exactly when the search finds every scope but the last. */
  lemma FairExactly(names: seq<string>)
    requires names != [] && NoDup(names)
    ensures Fair(names) <==> Searchable(names)
  {
    var n := |names|;
    if Searchable(names) {
      forall cursor: Option<string>, budgets: seq<nat>, from: nat |
        from + n <= |Visits(names, cursor, budgets)|
        ensures EachOnce(Visits(names, cursor, budgets), from, n)
      {
        EveryScopeOnce(names, cursor, budgets, from);
      }
    } else {
      var p :| 0 <= p < n - 1 && Search(names, names[p]) != Some(p);
      LostScopeTraps(names, p, None, n);
      var v := Visits(names, None, Ones(n));
      assert v[0..0 + n] == v;
      assert n - 1 !in v;
      assert n - 1 in Below(n);
      assert !EachOnce(v, 0, n);
    }
  }

  lemma SortedIsFair(names: seq<string>)
    requires names != [] && StrictlySorted(names)
    ensures Fair(names)
  {
    SortedNoDup(names);
    SortedIsSearchable(names);
    FairExactly(names);
  }

  /** Scope order and name order do differ: the tenants `a` and `a-b` sort this
      way as scopes, and the search then loses the first; with one scope per
      cycle the second is never visited. */
  lemma ScopeOrderStarves(m: nat)
    ensures var names := ["a/graphs/g", "a-b/graphs/g"];
            && !Searchable(names)
            && (forall i :: 0 <= i < |Visits(names, None, Ones(m))| ==> Visits(names, None, Ones(m))[i] == 0)
  {
    var a, b := "a/graphs/g", "a-b/graphs/g";
    var names := [a, b];
    assert a[1] == '/' && b[1] == '-';
    assert !Lexicographic.Less(a, b) by {
      assert !Lexicographic.Less(a[1..], b[1..]);
    }
    assert Descend(names, a, 0, 2) == Descend(names, a, 1, 1) == 1;
    assert names[1] != a;
    assert names[0] == a && Search(names, names[0]) == None;
    LostScopeTraps(names, 0, None, m);
  }
}

/** When a cycle reports that the registry has been swept. */
module SweepDetection {
  import opened Basics
  import opened CyclicOrder
  import opened ScopeRegistry
  import opened FairSchedule
  import Lexicographic

  function CompletedScopeSweep(
    progressed: bool, start: Option<string>, end: Option<string>, final: Option<string>, startRegistered: bool): bool
  {
    if !progressed then false
    else if end == final && end.Some? then true
    else
      startRegistered && start.Some? && end.Some? && final.Some?
      && start != final && Lexicographic.Less(end.value, start.value)
  }

  predicate Registered(names: seq<string>, cursor: Option<string>) {
    cursor.Some? && Search(names, cursor.value).Some?
  }

  /** What the cycle reports after advancing the cursor over `len` scopes. */
  function Reports(names: seq<string>, cursor: Option<string>, len: nat): bool
    requires names != []
  {
    CompletedScopeSweep(len > 0, cursor, CursorAfter(names, cursor, len), Some(names[|names| - 1]),
        Registered(names, cursor))
  }

  /** The pass reached the final scope of the registry. */
  ghost predicate VisitsFinal(names: seq<string>, cursor: Option<string>, len: nat)
    requires names != []
  {
    exists o: nat :: o < len && Around(|names|, StartIndex(names, cursor), o) == |names| - 1
  }

  /** A full lap from a registered scope other than the final one. */
  predicate SilentLap(names: seq<string>, cursor: Option<string>, len: nat)
    requires names != []
  {
    len == |names| && Registered(names, cursor) && cursor != Some(names[|names| - 1])
  }

  lemma VisitsFinalIs(names: seq<string>, cursor: Option<string>, len: nat)
    requires names != [] && len <= |names|
    ensures VisitsFinal(names, cursor, len) <==> StartIndex(names, cursor) + len >= |names|
  {
    var n, start := |names|, StartIndex(names, cursor);
    if start + len >= n {
      ModLap(start, n - 1 - start, n);
      assert Around(n, start, n - 1 - start) == n - 1;
    }
    forall o: nat | o < len ensures Around(n, start, o) == n - 1 <==> start + o == n - 1 {
      ModLap(start, o, n);
    }
  }

  /** A sweep is reported exactly when the pass landed on or crossed the final
      scope, except after a full lap that began at a registered scope other
      than the final one: that lap visits everything and reports nothing. */
  lemma SweepExact(names: seq<string>, cursor: Option<string>, len: nat)
    requires names != [] && StrictlySorted(names) && len <= |names|
    ensures Reports(names, cursor, len) <==> VisitsFinal(names, cursor, len) && !SilentLap(names, cursor, len)
  {
    var n, start := |names|, StartIndex(names, cursor);
    VisitsFinalIs(names, cursor, len);
    SortedNoDup(names);
    if len > 0 {
      ModLap(start, len - 1, n);
      var e := (start + (len - 1)) % n;
      if Registered(names, cursor) {
        var p := Search(names, cursor.value).value;
        ModLap(p, 1, n);
        assert e != n - 1 ==> names[e] != names[n - 1];
        assert p != n - 1 ==> names[p] != names[n - 1];
        Lexicographic.Trichotomy(names[e], names[p]);
        if e != p {
          assert e < p <==> Lexicographic.Less(names[e], names[p]);
        }
      }
    }
  }

  /** Below a full lap there is no exception. */
  lemma ShortPassExact(names: seq<string>, cursor: Option<string>, len: nat)
    requires names != [] && StrictlySorted(names) && len < |names|
    ensures Reports(names, cursor, len) <==> VisitsFinal(names, cursor, len)
  {
    SweepExact(names, cursor, len);
  }

  /** The registry snapshot and cursor an indexer keeps between cycles, and how
      a race-free, failure-free cycle with cold budget `k` changes them. */
  datatype Schedule = Schedule(names: seq<string>, cursor: Option<string>)

  function CycleReports(s: Schedule, k: nat): bool
    requires s.names != []
  {
    Reports(s.names, s.cursor, SliceLen(|s.names|, k))
  }

  function NextSchedule(s: Schedule, k: nat): Schedule
    requires s.names != []
  {
    var after := CursorAfter(s.names, s.cursor, SliceLen(|s.names|, k));
    Schedule(if CycleReports(s, k) then [] else s.names, after)
  }

  /** The state in which a whole lap per cycle reports nothing. */
  predicate Stuck(s: Schedule) {
    s.names != [] && Registered(s.names, s.cursor) && s.cursor != Some(s.names[|s.names| - 1])
  }

  function RunCycles(s: Schedule, budgets: seq<nat>): Schedule
    decreases |budgets|
  {
    if budgets == [] || s.names == [] then s else RunCycles(NextSchedule(s, budgets[0]), budgets[1..])
  }

  lemma LapReturns(s: Schedule, k: nat)
    requires Stuck(s) && StrictlySorted(s.names) && k >= |s.names|
    ensures NextSchedule(s, k) == s && !CycleReports(s, k)
  {
    var n := |s.names|;
    var p := Search(s.names, s.cursor.value).value;
    SweepExact(s.names, s.cursor, n);
    ModAdd(p + 1, n - 1, n);
    assert (p + 1) + (n - 1) == p + n;
    ModUnique(p + n, n, 1, p);
  }

  /** Full laps from such a state repeat for ever: the same snapshot, the same
      cursor, no report, so the registry is never listed again. */
  lemma {:induction false} StuckForever(s: Schedule, budgets: seq<nat>)
    requires Stuck(s) && StrictlySorted(s.names)
    requires forall i :: 0 <= i < |budgets| ==> budgets[i] >= |s.names|
    ensures RunCycles(s, budgets) == s
    decreases |budgets|
  {
    if budgets != [] {
      LapReturns(s, budgets[0]);
      StuckForever(s, budgets[1..]);
    }
  }

  ghost function Total(budgets: seq<nat>): nat
    decreases |budgets|
  {
    if budgets == [] then 0 else budgets[0] + Total(budgets[1..])
  }

  /** Below a full lap the snapshot is refreshed within one rotation: once the
      budgets add up to the distance to the final scope, a report has occurred. */
  lemma {:induction false} SweepWithinRotation(s: Schedule, budgets: seq<nat>)
    requires s.names != [] && StrictlySorted(s.names)
    requires forall i :: 0 <= i < |budgets| ==> 0 < budgets[i] < |s.names|
    requires StartIndex(s.names, s.cursor) + Total(budgets) >= |s.names|
    ensures RunCycles(s, budgets).names == []
    decreases |budgets|
  {
    var n, k := |s.names|, budgets[0];
    ShortPassExact(s.names, s.cursor, k);
    VisitsFinalIs(s.names, s.cursor, k);
    if StartIndex(s.names, s.cursor) + k < n {
      SortedNoDup(s.names);
      SortedIsSearchable(s.names);
      NextStart(s.names, s.cursor, k);
      ModLap(StartIndex(s.names, s.cursor), k, n);
      SweepWithinRotation(NextSchedule(s, k), budgets[1..]);
    } else {
      assert RunCycles(NextSchedule(s, k), budgets[1..]) == NextSchedule(s, k);
    }
  }
}
