/** The indexer's cache of open readers: the sections that run under its lock.
    A reader is identified by a number; `borrowed` holds the readers that some
    task has a handle on, so an entry outside it has a strong count of one. */
module ScopeCache {
  import opened Basics

  const HOT_SCOPE_IDLE_RECHECKS: nat := 2

  type Scope = string

  datatype Entry = Entry(reader: nat, lastUsed: nat, hot: bool, idleRechecks: nat)

  type Clusters = map<Scope, Entry>

  /** Entries that eviction may take. */
  function Unborrowed(c: Clusters, borrowed: set<nat>): set<Scope> {
    set sc | sc in c && c[sc].reader !in borrowed
  }

  /** `scope` is the least recently used entry nobody holds. */
  predicate IsVictim(c: Clusters, borrowed: set<nat>, scope: Scope) {
    scope in Unborrowed(c, borrowed)
    && forall other :: other in Unborrowed(c, borrowed) ==> c[scope].lastUsed <= c[other].lastUsed
  }

  function Touched(c: Clusters, scope: Scope, access: nat): Clusters
    requires scope in c
  {
    c[scope := c[scope].(lastUsed := access)]
  }

  /** What admitting a freshly opened reader leads to. */
  datatype Admission =
    | Duplicate                     // another task got there first; its reader is used
    | Fits
    | Evicts(victim: Scope)
    | Full                          // every cached reader is in use

  ghost predicate AdmissionFor(c: Clusters, maxOpen: nat, borrowed: set<nat>, scope: Scope, a: Admission) {
    match a
    case Duplicate => scope in c
    case Fits => scope !in c && |c| < maxOpen
    case Evicts(victim) => scope !in c && |c| >= maxOpen && IsVictim(c, borrowed, victim)
    case Full => scope !in c && |c| >= maxOpen && Unborrowed(c, borrowed) == {}
  }

  function Admitted(c: Clusters, scope: Scope, reader: nat, access: nat, a: Admission): Clusters
    requires a.Duplicate? ==> scope in c
  {
    match a
    case Duplicate => Touched(c, scope, access)
    case Fits => c[scope := Entry(reader, access, false, 0)]
    case Evicts(victim) => (c - {victim})[scope := Entry(reader, access, false, 0)]
    case Full => c
  }

  /** What the end of a task does to the entry it used: a build makes it hot, a
      second idle recheck or a cold look drops it, another reader is left alone. */
  datatype Verdict = Leave | Drop | Keep(entry: Entry)

  function FinishVerdict(c: Clusters, scope: Scope, expected: nat, cacheHit: bool, built: bool): Verdict {
    if scope !in c || c[scope].reader != expected then Leave
    else if built then Keep(c[scope].(hot := true, idleRechecks := 0))
    else if cacheHit && c[scope].hot then
      var idle := if c[scope].idleRechecks < 255 then c[scope].idleRechecks + 1 else 255;
      if idle >= HOT_SCOPE_IDLE_RECHECKS then Drop else Keep(c[scope].(idleRechecks := idle))
    else Drop
  }

  /** The scope's entry is for this very reader. */
  predicate Holds(c: Clusters, scope: Scope, reader: nat) { scope in c && c[scope].reader == reader }

  function AfterVerdict(c: Clusters, scope: Scope, v: Verdict): Clusters {
    match v
    case Leave => c
    case Drop => c - {scope}
    case Keep(entry) => c[scope := entry]
  }

  /** Unregistered entries that nobody holds. */
  function Stale(c: Clusters, registered: set<Scope>, borrowed: set<nat>): set<Scope> {
    set sc | sc in c && sc !in registered && c[sc].reader !in borrowed
  }

  /** Scopes with their readers. */
  function Readers(c: Clusters, scopes: set<Scope>): set<(Scope, nat)>
    requires scopes <= c.Keys
  {
    set sc | sc in scopes :: (sc, c[sc].reader)
  }

  function HotScopesOf(c: Clusters): set<Scope> { set sc | sc in c && c[sc].hot }

  /** `r` lists the `limit` most recently used hot scopes, latest first. */
  ghost predicate HottestFirst(c: Clusters, limit: nat, r: seq<Scope>) {
    && NoDup(r) && Elems(r) <= HotScopesOf(c)
    && |r| == Min(limit, |HotScopesOf(c)|)
    && (forall i, j :: 0 <= i < j < |r| && r[i] in c && r[j] in c ==> c[r[i]].lastUsed >= c[r[j]].lastUsed)
    && (forall i, sc :: 0 <= i < |r| && r[i] in c && sc in HotScopesOf(c) && sc !in r ==>
        c[r[i]].lastUsed >= c[sc].lastUsed)
  }

  lemma HottestMeans(c: Clusters, limit: nat, r: seq<Scope>)
    requires HottestFirst(c, limit, r)
    ensures forall sc :: sc in r ==> sc in c && c[sc].hot
    ensures forall i, j :: 0 <= i < j < |r| ==> r[i] in c && r[j] in c && c[r[i]].lastUsed >= c[r[j]].lastUsed
    ensures forall sc :: sc in c && c[sc].hot && sc !in r ==>
              |r| == limit && forall i :: 0 <= i < |r| ==> r[i] in c && c[r[i]].lastUsed >= c[sc].lastUsed
  {
    assert forall sc :: sc in r <==> sc in Elems(r);
    assert forall i :: 0 <= i < |r| ==> r[i] in Elems(r);
    if |r| != limit {
      NoDupCard(r);
      SubsetCard(Elems(r), HotScopesOf(c));
    }
  }

  class IndexerScopeCache {
    const maxOpenScopes: nat
    var accessClock: nat
    var clusters: Clusters

    ghost predicate Valid()
      reads this
    {
      |clusters| <= maxOpenScopes
    }

    constructor (maxOpenScopes: nat)
      ensures Valid() && clusters == map[] && accessClock == 0 && this.maxOpenScopes == maxOpenScopes
    {
      this.maxOpenScopes := maxOpenScopes;
      accessClock := 0;
      clusters := map[];
    }

    /** The start of a lookup: a new access stamp, then the first locked section. */
    method Lookup(scope: Scope) returns (access: nat, hit: Option<nat>)
      requires Valid()
      modifies this`accessClock, this`clusters
      ensures Valid() && access == accessClock == old(accessClock) + 1
      ensures hit.Some? <==> scope in old(clusters)
      ensures hit.Some? ==>
                && hit.value == old(clusters)[scope].reader
                && clusters == Touched(old(clusters), scope, access)
                && clusters == old(clusters)[scope := old(clusters)[scope].(lastUsed := access)]
      ensures hit.None? ==> clusters == old(clusters)
    {
      accessClock := accessClock + 1;
      access := accessClock;
      if scope in clusters {
        KeysOfUpdate(clusters, scope, clusters[scope].(lastUsed := access));
        clusters := clusters[scope := clusters[scope].(lastUsed := access)];
        return access, Some(clusters[scope].reader);
      }
      return access, None;
    }

    /** `filter(strong_count == 1).min_by_key(last_used)`. */
    method LeastRecentlyUsed(borrowed: set<nat>) returns (candidate: Option<Scope>)
      ensures candidate.None? <==> Unborrowed(clusters, borrowed) == {}
      ensures candidate.Some? ==> IsVictim(clusters, borrowed, candidate.value)
    {
      candidate := None;
      var left := Unborrowed(clusters, borrowed);
      while left != {}
        invariant left <= Unborrowed(clusters, borrowed)
        invariant candidate.None? ==> left == Unborrowed(clusters, borrowed)
        invariant candidate.Some? ==> candidate.value in Unborrowed(clusters, borrowed)
        invariant candidate.Some? ==> forall other :: other in Unborrowed(clusters, borrowed) - left ==>
                                        clusters[candidate.value].lastUsed <= clusters[other].lastUsed
        decreases |left|
      {
        var sc :| sc in left;
        if candidate.None? || clusters[sc].lastUsed < clusters[candidate.value].lastUsed {
          candidate := Some(sc);
        }
        left := left - {sc};
      }
    }

    /** The second locked section: select the reader to use, evicting at the bound. */
    method Admit(scope: Scope, reader: nat, access: nat, borrowed: set<nat>)
      returns (selected: Option<nat>, evicted: Option<nat>, ghost a: Admission)
      requires Valid()
      modifies this`clusters
      ensures Valid()
      ensures AdmissionFor(old(clusters), maxOpenScopes, borrowed, scope, a)
      ensures clusters == Admitted(old(clusters), scope, reader, access, a)
      ensures a.Full? ==> clusters == old(clusters)
      ensures a.Duplicate? ==> clusters == old(clusters)[scope := old(clusters)[scope].(lastUsed := access)]
      ensures !a.Full? && !a.Duplicate? ==>
                clusters == (if a.Evicts? then old(clusters) - {a.victim} else old(clusters))
                              [scope := Entry(reader, access, false, 0)]
      ensures selected.None? <==> a.Full?
      ensures selected.Some? ==> scope in clusters && clusters[scope].reader == selected.value
      ensures a.Duplicate? <==> selected.Some? && scope in old(clusters)
      ensures selected.Some? && !a.Duplicate? ==> selected.value == reader
      ensures evicted.Some? <==> a.Evicts?
      ensures a.Evicts? ==> evicted.value == old(clusters)[a.victim].reader && evicted.value !in borrowed
    {
      evicted := None;
      if scope in clusters {
        a := Duplicate;
        clusters := clusters[scope := clusters[scope].(lastUsed := access)];
        selected := Some(clusters[scope].reader);
        return;
      }
      a := Fits;
      if |clusters| >= maxOpenScopes {
        var candidate := LeastRecentlyUsed(borrowed);
        if candidate.None? {
          a := Full;
          selected := None;
          return;
        }
        a := Evicts(candidate.value);
        evicted := Some(clusters[candidate.value].reader);
        RemoveShrinks(clusters, candidate.value);
        clusters := clusters - {candidate.value};
      }
      InsertGrows(clusters, scope, Entry(reader, access, false, 0));
      clusters := clusters[scope := Entry(reader, access, false, 0)];
      selected := Some(reader);
    }

    method FinishScope(scope: Scope, expected: nat, cacheHit: bool, built: bool) returns (removed: Option<nat>)
      requires Valid()
      modifies this`clusters
      ensures Valid()
      ensures clusters == AfterVerdict(old(clusters), scope,
                FinishVerdict(old(clusters), scope, expected, cacheHit, built))
      ensures removed == if FinishVerdict(old(clusters), scope, expected, cacheHit, built).Drop?
                then Some(expected) else None
      ensures !Holds(old(clusters), scope, expected) ==> clusters == old(clusters) && removed.None?
      ensures Holds(old(clusters), scope, expected) ==>
                var was := old(clusters)[scope];
                if built then
                  clusters == old(clusters)[scope := Entry(expected, was.lastUsed, true, 0)] && removed.None?
                else if cacheHit && was.hot && was.idleRechecks == 0 then
                  clusters == old(clusters)[scope := Entry(expected, was.lastUsed, true, 1)] && removed.None?
                else
                  clusters == old(clusters) - {scope} && removed == Some(expected)
    {
      removed := None;
      match FinishVerdict(clusters, scope, expected, cacheHit, built)
      case Leave =>
      case Keep(entry) =>
        KeysOfUpdate(clusters, scope, entry);
        clusters := clusters[scope := entry];
      case Drop =>
        RemoveShrinks(clusters, scope);
        clusters := clusters - {scope};
        removed := Some(expected);
    }

    method Invalidate(scope: Scope, expected: nat) returns (removed: Option<nat>)
      requires Valid()
      modifies this`clusters
      ensures Valid()
      ensures removed.Some? <==> scope in old(clusters) && old(clusters)[scope].reader == expected
      ensures removed.Some? ==> removed.value == expected && clusters == old(clusters) - {scope}
      ensures removed.None? ==> clusters == old(clusters)
    {
      removed := None;
      if scope in clusters && clusters[scope].reader == expected {
        removed := Some(clusters[scope].reader);
        RemoveShrinks(clusters, scope);
        clusters := clusters - {scope};
      }
    }

    method InvalidateScope(scope: Scope) returns (removed: Option<nat>)
      requires Valid()
      modifies this`clusters
      ensures Valid()
      ensures removed == if scope in old(clusters) then Some(old(clusters)[scope].reader) else None
      ensures clusters == old(clusters) - {scope}
    {
      removed := None;
      if scope in clusters {
        removed := Some(clusters[scope].reader);
        RemoveShrinks(clusters, scope);
      }
      clusters := clusters - {scope};
    }

    /** Drops the readers of scopes that are no longer registered, one by one. */
    method RetainRegistered(registered: set<Scope>, borrowed: set<nat>) returns (removed: seq<(Scope, nat)>)
      requires Valid()
      modifies this`clusters
      ensures Valid()
      ensures clusters == old(clusters) - Stale(old(clusters), registered, borrowed)
      ensures forall sc :: sc in clusters <==>
                && sc in old(clusters) && (sc in registered || old(clusters)[sc].reader in borrowed)
      ensures forall sc, r :: (sc, r) in removed <==>
                && sc in old(clusters) && sc !in clusters && r == old(clusters)[sc].reader
      ensures NoDup(removed)
      ensures Elems(removed) == Readers(old(clusters), Stale(old(clusters), registered, borrowed))
    {
      removed := RemoveAll(Stale(clusters, registered, borrowed));
      assert forall x :: x in removed <==> x in Elems(removed);
    }

    method RemoveAll(scopes: set<Scope>) returns (removed: seq<(Scope, nat)>)
      requires Valid() && scopes <= clusters.Keys
      modifies this`clusters
      ensures Valid()
      ensures clusters == old(clusters) - scopes
      ensures NoDup(removed)
      ensures Elems(removed) == Readers(old(clusters), scopes)
    {
      removed := [];
      var left := scopes;
      ghost var was := clusters;
      assert scopes - left == {} && was - {} == was;
      while left != {}
        invariant left <= scopes <= was.Keys && was == old(clusters)
        invariant clusters == was - (scopes - left) && |clusters| <= |was|
        invariant NoDup(removed)
        invariant Elems(removed) == Readers(was, scopes - left)
        decreases |left|
      {
        hide Elems, NoDup, Readers;
        var sc :| sc in left;
        RemoveOne(was, scopes, left, removed, sc);
        removed := removed + [(sc, clusters[sc].reader)];
        clusters := clusters - {sc};
        left := left - {sc};
      }
      assert scopes - left == scopes;
    }

    /** Hot scopes, latest first: selection of the most recent remaining one. */
    method HotScopes(limit: nat) returns (r: seq<Scope>)
      ensures HottestFirst(clusters, limit, r)
      ensures NoDup(r) && |r| <= limit && forall sc :: sc in r ==> sc in clusters && clusters[sc].hot
      ensures forall i, j :: 0 <= i < j < |r| ==>
                r[i] in clusters && r[j] in clusters && clusters[r[i]].lastUsed >= clusters[r[j]].lastUsed
      ensures forall sc :: sc in clusters && clusters[sc].hot && sc !in r ==>
                |r| == limit && forall i :: 0 <= i < |r| ==>
                                  r[i] in clusters && clusters[r[i]].lastUsed >= clusters[sc].lastUsed
    {
      r := [];
      var left := HotScopesOf(clusters);
      while left != {} && |r| < limit
        invariant left <= HotScopesOf(clusters)
        invariant NoDup(r) && Elems(r) == HotScopesOf(clusters) - left && |r| + |left| == |HotScopesOf(clusters)|
        invariant |r| <= limit
        invariant forall i, j :: 0 <= i < j < |r| && r[i] in clusters && r[j] in clusters ==>
                                   clusters[r[i]].lastUsed >= clusters[r[j]].lastUsed
        invariant forall i, sc :: 0 <= i < |r| && r[i] in clusters && sc in left ==>
                                    clusters[r[i]].lastUsed >= clusters[sc].lastUsed
        decreases |left|
      {
        var best := MostRecent(left);
        assert best !in r by { assert best in r ==> best in Elems(r); }
        left := left - {best};
        ElemsConcat(r, [best]);
        r := r + [best];
      }
      assert forall sc :: sc in r <==> sc in Elems(r);
      HottestMeans(clusters, limit, r);
    }

    method MostRecent(scopes: set<Scope>) returns (best: Scope)
      requires scopes != {} && scopes <= clusters.Keys
      ensures best in scopes && forall sc :: sc in scopes ==> clusters[sc].lastUsed <= clusters[best].lastUsed
    {
      best :| best in scopes;
      var left := scopes - {best};
      while left != {}
        invariant best in scopes && left <= scopes
        invariant forall sc :: sc in scopes - left ==> clusters[sc].lastUsed <= clusters[best].lastUsed
        decreases |left|
      {
        var sc :| sc in left;
        if clusters[sc].lastUsed > clusters[best].lastUsed { best := sc; }
        left := left - {sc};
      }
    }
  }

  /** One more scope and its reader behind a listing. */
  lemma ListedNext(c: Clusters, removed: seq<(Scope, nat)>, done: set<Scope>, sc: Scope)
    requires done <= c.Keys && sc in c && sc !in done
    requires NoDup(removed) && Elems(removed) == Readers(c, done)
    ensures var r := removed + [(sc, c[sc].reader)];
            NoDup(r) && Elems(r) == Readers(c, done + {sc})
  {
    ElemsConcat(removed, [(sc, c[sc].reader)]);
    assert (sc, c[sc].reader) !in Elems(removed);
  }

  /** One more removal: the map, its size and the listing. */
  lemma RemoveOne(was: Clusters, scopes: set<Scope>, left: set<Scope>, removed: seq<(Scope, nat)>, sc: Scope)
    requires left <= scopes <= was.Keys && sc in left
    requires NoDup(removed) && Elems(removed) == Readers(was, scopes - left)
    ensures sc in was - (scopes - left) && (was - (scopes - left))[sc] == was[sc]
    ensures was - (scopes - left) - {sc} == was - (scopes - (left - {sc}))
    ensures |was - (scopes - left) - {sc}| == |was - (scopes - left)| - 1
    ensures NoDup(removed + [(sc, was[sc].reader)])
    ensures Elems(removed + [(sc, was[sc].reader)]) == Readers(was, scopes - (left - {sc}))
  {
    hide NoDup, Elems, Readers;
    RemovalOrder(was, scopes, left, sc);
    RemoveShrinks(was - (scopes - left), sc);
    assert scopes - left + {sc} == scopes - (left - {sc});
    ListedNext(was, removed, scopes - left, sc);
  }

  lemma InsertGrows(c: Clusters, scope: Scope, e: Entry)
    requires scope !in c
    ensures |c[scope := e]| == |c| + 1
  {
    assert c[scope := e].Keys == c.Keys + {scope};
    assert |c.Keys| == |c| && |c[scope := e].Keys| == |c[scope := e]|;
  }

  lemma KeysOfUpdate(c: Clusters, scope: Scope, e: Entry)
    requires scope in c
    ensures |c[scope := e]| == |c|
  {
    assert c[scope := e].Keys == c.Keys;
    assert |c.Keys| == |c| && |c[scope := e].Keys| == |c[scope := e]|;
  }
}
