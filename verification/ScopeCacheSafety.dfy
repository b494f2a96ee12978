/** No reader is lost, closed twice or kept past the bound, in any interleaving. */
module ScopeCacheSafety {
  import opened Basics
  import opened ScopeCache
  import opened ScopeCacheRuns

  /** How a step moves readers: those in `delta` go there, the rest stay. */
  ghost predicate Moves(s: System, s': System, delta: map<nat, Place>) {
    forall r: nat, p: Place :: At(s', r, p) <==> if r in delta then delta[r] == p else At(s, r, p)
  }

  ghost predicate ListsOk(s: System) {
    NoDup(s.closed) && forall t :: 0 <= t < |s.tasks| ==> NoDup(ClosingOf(s.tasks[t]))
  }

  lemma PlacedAfter(s: System, s': System, place: map<nat, Place>, delta: map<nat, Place>)
    requires Placed(s, place) && Moves(s, s', delta) && ListsOk(s')
    requires s.next <= s'.next
    requires forall r: nat :: r in delta || r < s.next <==> r < s'.next
    ensures Placed(s', place + delta)
  {
  }

  /** Steps that move no reader. */
  lemma StillPlaced(s: System, s': System, t: nat, place: map<nat, Place>)
    requires Placed(s, place) && t < |s.tasks| == |s'.tasks|
    requires s'.tasks == s.tasks[t := s'.tasks[t]]
    requires !s.tasks[t].Opened? && !s'.tasks[t].Opened?
    requires ClosingOf(s.tasks[t]) == ClosingOf(s'.tasks[t]) == []
    requires s'.next == s.next && s'.closed == s.closed
    requires s'.clusters.Keys == s.clusters.Keys
    requires forall sc :: sc in s.clusters ==> s'.clusters[sc].reader == s.clusters[sc].reader
    ensures Placed(s', place)
  {
    forall r: nat, p: Place ensures At(s', r, p) <==> At(s, r, p) {
      match p
      case InFlight(i) =>
      case CachedAt(sc) =>
      case Pending(i) =>
      case Shut =>
    }
    assert place + map[] == place;
    PlacedAfter(s, s', place, map[]);
  }

  lemma OpenPlaced(s: System, t: nat, place: map<nat, Place>)
    requires Placed(s, place) && Enabled(s, OpenDone(t))
    ensures Placed(Apply(s, OpenDone(t)), place[s.next := InFlight(t)])
  {
    var s' := Apply(s, OpenDone(t));
    var delta := map[s.next := InFlight(t)];
    forall r: nat, p: Place ensures At(s', r, p) <==> if r in delta then delta[r] == p else At(s, r, p) {
      assert At(s, r, p) ==> r in place;
      match p
      case InFlight(i) =>
      case CachedAt(sc) =>
      case Pending(i) =>
      case Shut =>
    }
    PlacedAfter(s, s', place, delta);
    assert place + delta == place[s.next := InFlight(t)];
  }

  lemma ClosePlaced(s: System, t: nat, place: map<nat, Place>)
    requires Placed(s, place) && Enabled(s, CloseOne(t))
    ensures Placed(Apply(s, CloseOne(t)), place[ClosingOf(s.tasks[t])[0] := Shut])
  {
    var s' := Apply(s, CloseOne(t));
    var closing := ClosingOf(s.tasks[t]);
    var r0 := closing[0];
    var delta := map[r0 := Shut];
    assert At(s, r0, Pending(t));
    assert closing == [r0] + closing[1..];
    assert ClosingOf(s'.tasks[t]) == closing[1..];
    forall r: nat, p: Place ensures At(s', r, p) <==> if r in delta then delta[r] == p else At(s, r, p) {
      assert At(s, r0, p) ==> p == Pending(t);
      match p
      case InFlight(i) =>
      case CachedAt(sc) =>
      case Pending(i) => assert i == t && r != r0 ==> (r in closing <==> r in closing[1..]);
      case Shut =>
    }
    assert !At(s, r0, Shut);
    PlacedAfter(s, s', place, delta);
    assert place + delta == place[r0 := Shut];
  }

  /** Entries leave the cache for a task's closing list. */
  lemma RemovePlaced(s: System, t: nat, order: seq<Scope>, x: Task, place: map<nat, Place>)
    requires Placed(s, place) && t < |s.tasks| && !s.tasks[t].Opened? && ClosingOf(s.tasks[t]) == []
    requires NoDup(order) && Elems(order) <= s.clusters.Keys
    requires !x.Opened? && ClosingOf(x) == ReadersIn(s.clusters, order)
    ensures exists after :: Placed(Removed(s, t, order, x), after)
  {
    var s' := Removed(s, t, order, x);
    var closing := ClosingOf(x);
    var delta := map r | r in Elems(closing) :: Pending(t);
    assert forall sc :: sc in order <==> sc in Elems(order);
    forall i | 0 <= i < |closing| ensures At(s, closing[i], CachedAt(order[i])) {
      assert order[i] in order;
    }
    forall i, j | 0 <= i < j < |closing| ensures closing[i] != closing[j] {
      assert At(s, closing[i], CachedAt(order[i])) && At(s, closing[j], CachedAt(order[j]));
    }
    forall r: nat, p: Place ensures At(s', r, p) <==> if r in delta then delta[r] == p else At(s, r, p) {
      if r in delta {
        var i :| 0 <= i < |closing| && closing[i] == r;
        assert At(s, r, CachedAt(order[i]));
        assert At(s, r, p) ==> p == CachedAt(order[i]);
      }
      match p
      case InFlight(i) =>
      case CachedAt(sc) =>
        if sc in order && At(s, r, p) {
          var i :| 0 <= i < |order| && order[i] == sc;
          assert closing[i] == r;
        }
      case Pending(i) =>
      case Shut =>
    }
    PlacedAfter(s, s', place, delta);
  }

  lemma DropPlaced(s: System, t: nat, scope: Scope, x: Task, place: map<nat, Place>)
    requires Placed(s, place) && t < |s.tasks| && !s.tasks[t].Opened? && ClosingOf(s.tasks[t]) == []
    requires scope in s.clusters && !x.Opened? && ClosingOf(x) == [s.clusters[scope].reader]
    ensures exists after :: Placed(WithTask(s, t, x).(clusters := s.clusters - {scope}), after)
  {
    assert Elems([scope]) == {scope};
    RemovePlaced(s, t, [scope], x, place);
  }

  /** The readers that an admission moves, with their new places. */
  ghost function Moved(s: System, t: nat, a: Admission): map<nat, Place>
    requires t < |s.tasks| && s.tasks[t].Opened? && (a.Evicts? ==> a.victim in s.clusters)
  {
    var x := s.tasks[t];
    match a
    case Duplicate => map[x.reader := Pending(t)]
    case Fits => map[x.reader := CachedAt(x.scope)]
    case Evicts(victim) => map[x.reader := CachedAt(x.scope), s.clusters[victim].reader := Pending(t)]
    case Full => map[x.reader := Pending(t)]
  }

  lemma AdmitParts(s: System, t: nat, a: Admission)
    requires Enabled(s, Admit(t, a))
    ensures t < |s.tasks| && s.tasks[t].Opened? && (a.Evicts? ==> a.victim in s.clusters)
    ensures NoDup(ClosingOf(Apply(s, Admit(t, a)).tasks[t]))
  {
    hide Stale, ReadersIn, AfterVerdict, FinishVerdict, Borrowed;
  }

  lemma AdmitMoves(s: System, t: nat, a: Admission, place: map<nat, Place>, r: nat, p: Place)
    requires Placed(s, place) && Enabled(s, Admit(t, a))
    requires t < |s.tasks| && s.tasks[t].Opened? && (a.Evicts? ==> a.victim in s.clusters)
    ensures At(Apply(s, Admit(t, a)), r, p) <==>
              if r in Moved(s, t, a) then Moved(s, t, a)[r] == p else At(s, r, p)
    ensures r in Moved(s, t, a) ==> r < s.next
  {
    hide Stale, ReadersIn, AfterVerdict, FinishVerdict, Borrowed, Unborrowed, NoDup;
    var x := s.tasks[t];
    assert At(s, x.reader, InFlight(t));
    assert a.Evicts? ==> At(s, s.clusters[a.victim].reader, CachedAt(a.victim));
    assert At(s, x.reader, p) ==> p == InFlight(t);
    assert a.Evicts? && At(s, s.clusters[a.victim].reader, p) ==> p == CachedAt(a.victim);
    match p
    case InFlight(i) =>
    case CachedAt(sc) =>
    case Pending(i) =>
    case Shut =>
  }

  lemma AdmitPlaced(s: System, t: nat, a: Admission, place: map<nat, Place>)
    requires Placed(s, place) && Enabled(s, Admit(t, a))
    ensures exists after :: Placed(Apply(s, Admit(t, a)), after)
  {
    var s' := Apply(s, Admit(t, a));
    AdmitParts(s, t, a);
    hide Moved, At;
    forall r: nat, p: Place
      ensures At(s', r, p) <==> if r in Moved(s, t, a) then Moved(s, t, a)[r] == p else At(s, r, p)
    {
      AdmitMoves(s, t, a, place, r, p);
    }
    forall r: nat | r in Moved(s, t, a) ensures r < s.next {
      AdmitMoves(s, t, a, place, r, Shut);
    }
    PlacedAfter(s, s', place, Moved(s, t, a));
  }

  /** Steps that take entries out of the cache on its own account. */
  lemma TaskEndPlaced(s: System, step: Step, place: map<nat, Place>)
    requires Placed(s, place) && Enabled(s, step) && (step.Finish? || step.Invalidate? || step.InvalidateScope?)
    ensures exists after :: Placed(Apply(s, step), after)
  {
    hide Placed;
    var s', t := Apply(s, step), step.t;
    var x := s.tasks[t];
    var scope := if step.InvalidateScope? then step.scope else x.scope;
    if s'.clusters.Keys != s.clusters.Keys {
      DropPlaced(s, t, scope, s'.tasks[t], place);
    } else {
      StillPlaced(s, s', t, place);
    }
  }

  lemma StaleCached(c: Clusters, registered: set<Scope>, borrowed: set<nat>)
    ensures Stale(c, registered, borrowed) <= c.Keys
  {
  }

  lemma StepPlaced(s: System, step: Step, place: map<nat, Place>)
    requires Placed(s, place) && Enabled(s, step)
    ensures exists after :: Placed(Apply(s, step), after)
  {
    hide Placed, ReadersIn, Unborrowed, Stale, AdmissionFor, FinishVerdict, AfterVerdict, Admitted, SelectedBy;
    var s' := Apply(s, step);
    match step
    case Arrive(t, scope) => StillPlaced(s, s', t, place);
    case Lookup(t) => StillPlaced(s, s', t, place);
    case OpenDone(t) => OpenPlaced(s, t, place);
    case OpenFailed(t) => StillPlaced(s, s', t, place);
    case Admit(t, a) => AdmitPlaced(s, t, a, place);
    case CloseOne(t) => ClosePlaced(s, t, place);
    case Finish(t, built) => TaskEndPlaced(s, step, place);
    case Invalidate(t) => TaskEndPlaced(s, step, place);
    case InvalidateScope(t, scope) => TaskEndPlaced(s, step, place);
    case Retain(t, registered, order) =>
      StaleCached(s.clusters, registered, Borrowed(s));
      RemovePlaced(s, t, order, s'.tasks[t], place);
    case CloseAll(t, order) => RemovePlaced(s, t, order, s'.tasks[t], place);
    case Leave(t) => StillPlaced(s, s', t, place);
  }

  // The bound, heat and gentleness.

  ghost predicate Bounded(s: System) { |s.clusters| <= s.maxOpen }

  /** Some task is processing the entry of `sc`. */
  ghost predicate InUse(s: System, sc: Scope)
    requires sc in s.clusters
  {
    exists t :: 0 <= t < |s.tasks| && s.tasks[t].Using? && s.tasks[t].scope == sc
        && s.tasks[t].reader == s.clusters[sc].reader
  }

  /** An entry nobody is processing has been built recently. */
  ghost predicate HotOk(s: System) {
    forall sc :: sc in s.clusters ==>
      s.clusters[sc].idleRechecks < HOT_SCOPE_IDLE_RECHECKS && (s.clusters[sc].hot || InUse(s, sc))
  }

  /** A reader in flight is held by its opener and nobody else. */
  ghost predicate Known(s: System) {
    forall t :: 0 <= t < |s.tasks| && (s.tasks[t].Using? || s.tasks[t].Leaving?) ==>
      s.tasks[t].reader < s.next && forall i :: !At(s, s.tasks[t].reader, InFlight(i))
  }

  /** What eviction, a duplicate open, a rejected open and the removal of
      unregistered scopes hand over for closing. */
  predicate TakenGently(x: Task) { x.Using? || (x.Closing? && !x.forced) }

  ghost predicate Gentle(s: System) {
    forall t, r :: 0 <= t < |s.tasks| && TakenGently(s.tasks[t]) && r in ClosingOf(s.tasks[t]) ==> r !in Borrowed(s)
  }

  ghost predicate Inv(s: System) {
    && (exists place :: Placed(s, place))
    && Bounded(s) && HotOk(s) && Known(s) && Gentle(s)
  }

  lemma SizeOfRemoval(c: Clusters, gone: set<Scope>)
    ensures |c - gone| <= |c|
  {
    assert (c - gone).Keys <= c.Keys;
    SubsetCard((c - gone).Keys, c.Keys);
    assert |(c - gone).Keys| == |c - gone| && |c.Keys| == |c|;
  }

  lemma StepBounded(s: System, step: Step)
    requires Bounded(s) && Enabled(s, step)
    ensures Bounded(Apply(s, step))
  {
    var x := s.tasks[step.t];
    match step
    case Lookup(_) =>
      if x.scope in s.clusters { KeysOfUpdate(s.clusters, x.scope, s.clusters[x.scope].(lastUsed := x.access)); }
    case Admit(_, a) =>
      match a {
        case Duplicate => KeysOfUpdate(s.clusters, x.scope, s.clusters[x.scope].(lastUsed := x.access));
        case Fits => InsertGrows(s.clusters, x.scope, Entry(x.reader, x.access, false, 0));
        case Evicts(victim) =>
          RemoveShrinks(s.clusters, victim);
          InsertGrows(s.clusters - {victim}, x.scope, Entry(x.reader, x.access, false, 0));
        case Full =>
      }
    case Finish(_, built) =>
      var v := FinishVerdict(s.clusters, x.scope, x.reader, x.hit, built);
      if v.Keep? { KeysOfUpdate(s.clusters, x.scope, v.entry); }
      SizeOfRemoval(s.clusters, {x.scope});
    case Invalidate(_) => SizeOfRemoval(s.clusters, {x.scope});
    case InvalidateScope(_, scope) => SizeOfRemoval(s.clusters, {scope});
    case Retain(_, _, order) => SizeOfRemoval(s.clusters, Elems(order));
    case CloseAll(_, order) => SizeOfRemoval(s.clusters, Elems(order));
    case _ =>
  }

  /** Other steps leave a task at its reader. */
  lemma KeepsUsing(s: System, step: Step, i: nat)
    requires Enabled(s, step) && i < |s.tasks| && s.tasks[i].Using?
    requires !(step.Finish? || step.Invalidate?)
    ensures var y := Apply(s, step).tasks[i];
            y.Using? && y.scope == s.tasks[i].scope && y.reader == s.tasks[i].reader
  {
    hide AdmissionFor, Stale, Unborrowed, ReadersIn, Admitted, AfterVerdict, FinishVerdict, Borrowed;
  }

  /** The steps that look up or admit one entry. */
  lemma HotAfterEntry(s: System, step: Step, sc: Scope)
    requires HotOk(s) && Enabled(s, step) && sc in Apply(s, step).clusters && (step.Admit? || step.Lookup?)
    ensures Apply(s, step).clusters[sc].idleRechecks < HOT_SCOPE_IDLE_RECHECKS
    ensures Apply(s, step).clusters[sc].hot || InUse(Apply(s, step), sc)
  {
    hide IsVictim, Unborrowed, Borrowed, FinishVerdict, AfterVerdict, Stale, ReadersIn;
    var s', t := Apply(s, step), step.t;
    if sc == s.tasks[t].scope {
      assert s'.tasks[t].Using? ==> s'.tasks[t].reader == s'.clusters[sc].reader;
    }
    if sc in s.clusters && !s.clusters[sc].hot {
      var i :| 0 <= i < |s.tasks| && s.tasks[i].Using? && s.tasks[i].scope == sc
          && s.tasks[i].reader == s.clusters[sc].reader;
      assert s'.tasks[i] == s.tasks[i];
    }
  }

  /** The steps that end a task's use of its entry. */
  lemma HotAfterEnd(s: System, step: Step, sc: Scope)
    requires HotOk(s) && Enabled(s, step) && sc in Apply(s, step).clusters && (step.Finish? || step.Invalidate?)
    ensures Apply(s, step).clusters[sc].idleRechecks < HOT_SCOPE_IDLE_RECHECKS
    ensures Apply(s, step).clusters[sc].hot || InUse(Apply(s, step), sc)
  {
    hide Admitted, Borrowed, Stale, ReadersIn, SelectedBy;
    var s', t := Apply(s, step), step.t;
    if !s.clusters[sc].hot {
      var i :| 0 <= i < |s.tasks| && s.tasks[i].Using? && s.tasks[i].scope == sc
          && s.tasks[i].reader == s.clusters[sc].reader;
      if i != t {
        assert s'.tasks[i] == s.tasks[i];
        assert s'.clusters[sc].reader == s.clusters[sc].reader;
      }
    }
  }

  lemma StepHot(s: System, step: Step)
    requires HotOk(s) && Enabled(s, step)
    ensures HotOk(Apply(s, step))
  {
    hide IsVictim, Stale, Unborrowed, ReadersIn, Admitted, AfterVerdict, FinishVerdict, Borrowed;
    var s' := Apply(s, step);
    forall sc | sc in s'.clusters
      ensures s'.clusters[sc].idleRechecks < HOT_SCOPE_IDLE_RECHECKS && (s'.clusters[sc].hot || InUse(s', sc))
    {
      if step.Finish? || step.Invalidate? {
        HotAfterEnd(s, step, sc);
      } else if step.Admit? || step.Lookup? {
        HotAfterEntry(s, step, sc);
      } else {
        assert sc in s.clusters && s'.clusters[sc] == s.clusters[sc];
        if !s.clusters[sc].hot {
          var i :| 0 <= i < |s.tasks| && s.tasks[i].Using? && s.tasks[i].scope == sc
              && s.tasks[i].reader == s.clusters[sc].reader;
          KeepsUsing(s, step, i);
        }
      }
    }
  }

  lemma StepKnown(s: System, step: Step, place: map<nat, Place>)
    requires Placed(s, place) && Known(s) && Enabled(s, step)
    ensures Known(Apply(s, step))
  {
    hide IsVictim, Stale, Unborrowed, ReadersIn, Admitted, AfterVerdict, FinishVerdict, Borrowed;
    var s', t := Apply(s, step), step.t;
    forall u | 0 <= u < |s'.tasks| && (s'.tasks[u].Using? || s'.tasks[u].Leaving?)
      ensures s'.tasks[u].reader < s'.next && forall i :: !At(s', s'.tasks[u].reader, InFlight(i))
    {
      var r := s'.tasks[u].reader;
      if u == t && (step.Lookup? || step.Admit?) {
        var x := s.tasks[t];
        if step.Admit? && !step.a.Duplicate? {
          assert r == x.reader && At(s, r, InFlight(t));
        } else {
          assert At(s, r, CachedAt(x.scope));
        }
      }
      forall i: nat ensures !At(s', r, InFlight(i)) {
        if i != t { assert At(s', r, InFlight(i)) ==> At(s, r, InFlight(i)); }
      }
    }
  }

  lemma BorrowedIs(s: System, r: nat)
    ensures r in Borrowed(s) <==> exists t :: 0 <= t < |s.tasks| && Handle(s.tasks[t]) == Some(r)
  {
    if t :| 0 <= t < |s.tasks| && Handle(s.tasks[t]) == Some(r) {
      assert Handle(s.tasks[t]).value == r;
    }
  }

  /** A reader waiting to be closed is not picked up again. */
  lemma NotPickedUp(s: System, step: Step, place: map<nat, Place>, u: nat, r: nat)
    requires Placed(s, place) && Enabled(s, step) && At(s, r, Pending(u)) && r !in Borrowed(s)
    ensures r !in Borrowed(Apply(s, step))
  {
    hide Enabled, Apply, Borrowed, Placed, At, Handle;
    var s' := Apply(s, step);
    BorrowedIs(s, r);
    BorrowedIs(s', r);
    OneTaskActs(s, step);
    forall v | 0 <= v < |s'.tasks| ensures Handle(s'.tasks[v]) != Some(r) {
      assert Handle(s.tasks[v]) != Some(r);
      if v == step.t { OwnHandle(s, step, place, u, r); }
    }
  }

  lemma OneTaskActs(s: System, step: Step)
    requires Enabled(s, step)
    ensures var s' := Apply(s, step);
            |s'.tasks| == |s.tasks| && forall v :: 0 <= v < |s.tasks| && v != step.t ==> s'.tasks[v] == s.tasks[v]
  {
    hide IsVictim, Stale, Unborrowed, ReadersIn, Admitted, AfterVerdict, FinishVerdict, Borrowed;
  }

  lemma OwnHandle(s: System, step: Step, place: map<nat, Place>, u: nat, r: nat)
    requires Placed(s, place) && Enabled(s, step) && At(s, r, Pending(u)) && step.t < |s.tasks|
    requires step.t < |Apply(s, step).tasks| && Handle(s.tasks[step.t]) != Some(r)
    ensures Handle(Apply(s, step).tasks[step.t]) != Some(r)
  {
    hide Enabled, Apply, Handle;
    assert r in place && r != s.next && !At(s, r, InFlight(step.t));
    forall sc | sc in s.clusters ensures s.clusters[sc].reader != r {
      assert !At(s, r, CachedAt(sc));
    }
    hide Placed, At;
    HandleAfter(s, step, r);
  }

  lemma HandleAfter(s: System, step: Step, r: nat)
    requires Enabled(s, step) && step.t < |s.tasks| && step.t < |Apply(s, step).tasks|
    requires Handle(s.tasks[step.t]) != Some(r) && r != s.next && !At(s, r, InFlight(step.t))
    requires forall sc :: sc in s.clusters ==> s.clusters[sc].reader != r
    ensures Handle(Apply(s, step).tasks[step.t]) != Some(r)
  {
    hide IsVictim, Stale, Unborrowed, ReadersIn, Admitted, AfterVerdict, FinishVerdict, Borrowed;
  }

  /** What a step newly hands over gently is in nobody's hands. */
  lemma AdmitHandsOver(s: System, t: nat, a: Admission, place: map<nat, Place>, r: nat)
    requires Placed(s, place) && Known(s) && Enabled(s, Admit(t, a))
    requires r in ClosingOf(Apply(s, Admit(t, a)).tasks[t])
    ensures r !in Borrowed(Apply(s, Admit(t, a)))
  {
    hide Borrowed, Admitted;
    var s' := Apply(s, Admit(t, a));
    var x := s.tasks[t];
    assert At(s, x.reader, InFlight(t));
    BorrowedIs(s, r);
    BorrowedIs(s', r);
    forall v | 0 <= v < |s'.tasks| ensures Handle(s'.tasks[v]) != Some(r) {
      assert v != t ==> s'.tasks[v] == s.tasks[v];
      if a.Evicts? {
        assert r == s.clusters[a.victim].reader && r !in Borrowed(s);
        assert At(s, r, CachedAt(a.victim));
        assert Handle(s.tasks[v]) != Some(r);
      } else {
        assert r == x.reader;
        assert a.Duplicate? ==> At(s, s.clusters[x.scope].reader, CachedAt(x.scope));
        assert v != t ==> !At(s, r, InFlight(v));
      }
    }
  }

  lemma RetainHandsOver(s: System, t: nat, registered: set<Scope>, order: seq<Scope>, r: nat)
    requires Enabled(s, Retain(t, registered, order))
    requires r in ReadersIn(s.clusters, order)
    ensures r !in Borrowed(Apply(s, Retain(t, registered, order)))
  {
    hide Borrowed;
    var s' := Apply(s, Retain(t, registered, order));
    var i :| 0 <= i < |order| && r == ReadersIn(s.clusters, order)[i];
    assert order[i] in Elems(order);
    BorrowedIs(s, r);
    BorrowedIs(s', r);
    forall v | 0 <= v < |s'.tasks| ensures Handle(s'.tasks[v]) != Some(r) {
      assert Handle(s.tasks[v]) != Some(r);
    }
  }

  lemma StepGentle(s: System, step: Step, place: map<nat, Place>)
    requires Placed(s, place) && Known(s) && Gentle(s) && Enabled(s, step)
    ensures Gentle(Apply(s, step))
  {
    hide AdmissionFor, Stale, Unborrowed, ReadersIn, Admitted, AfterVerdict, FinishVerdict, Borrowed, Placed, Known,
        SelectedBy;
    var s', t := Apply(s, step), step.t;
    forall u, r | 0 <= u < |s'.tasks| && TakenGently(s'.tasks[u]) && r in ClosingOf(s'.tasks[u])
      ensures r !in Borrowed(s')
    {
      if u != t || r in ClosingOf(s.tasks[t]) {
        assert TakenGently(s.tasks[u]) && At(s, r, Pending(u));
        NotPickedUp(s, step, place, u, r);
      } else {
        assert step.Admit? || step.Retain?;
        if step.Admit? {
          AdmitHandsOver(s, t, step.a, place, r);
        } else {
          RetainHandsOver(s, t, step.registered, step.order, r);
        }
      }
    }
  }

  lemma StepKeeps(s: System, step: Step)
    requires Inv(s) && Enabled(s, step)
    ensures Inv(Apply(s, step))
  {
    hide Placed, Bounded, HotOk, Known, Gentle, Enabled, Apply;
    var place :| Placed(s, place);
    StepPlaced(s, step, place);
    StepBounded(s, step);
    StepHot(s, step);
    StepKnown(s, step, place);
    StepGentle(s, step, place);
  }

  lemma InitHolds(s: System)
    requires Init(s)
    ensures Inv(s)
  {
    assert Placed(s, map[]);
  }

  lemma {:induction false} RunKeeps(s: System, steps: seq<Step>)
    requires Inv(s) && ValidRun(s, steps)
    ensures Inv(Run(s, steps))
    decreases |steps|
  {
    hide Inv, Enabled, Apply;
    if steps != [] {
      StepKeeps(s, steps[0]);
      RunKeeps(Apply(s, steps[0]), steps[1..]);
    }
  }
}
