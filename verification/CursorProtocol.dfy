/** Any number of indexers share one durable cursor. Each runs cycles: take the
    kept cursor or load the durable one, run the fair slice batch by batch, and
    after each batch move the cursor by compare-and-swap. */
module CursorProtocol {
  import opened Basics
  import opened CyclicOrder
  import opened ScopeRegistry
  import opened FairSchedule
  import opened SweepDetection

  /** The cursor object: its text and the version the store reports for it. */
  datatype Stored = Stored(value: string, version: nat)

  /** `ScopeCursor`: what an indexer last saw or wrote. */
  datatype Cursor = Cursor(lastScope: Option<string>, version: Option<nat>)

  /** One running cycle. `since` is the position in the log at which the
      indexer got hold of its current cursor. */
  datatype Cycle = Cycle(
    begun: Option<string>,
    budget: nat,
    concurrency: nat,
    cursor: Option<Cursor>,
    done: nat,
    ran: set<nat>,
    stopped: bool,
    since: nat)

  datatype Indexer = Indexer(names: seq<string>, kept: Option<Cursor>, cycle: Option<Cycle>)

  /** What happened, in order: cycles beginning, scopes run, cursors written. A
      write records the registry it was based on and the positions it passes:
      `len` of them from `from`. */
  datatype Event =
    | Began(ix: nat, cursor: Option<string>)
    | Ran(ix: nat, scope: string)
    | Wrote(ix: nat, names: seq<string>, was: Option<string>, now: string, from: nat, len: nat)

  datatype System = System(
    durable: Option<Stored>,
    issued: map<nat, string>,
    indexers: seq<Indexer>,
    log: seq<Event>,
    panicked: bool)

  /** How a conditional put ends. A failed one may or may not have taken effect. */
  datatype Outcome = Applied(version: nat) | AppliedUnseen(version: nat) | Rejected | Failed

  datatype Step =
    | Discover(ix: nat, names: seq<string>)
    | Begin(ix: nat, budget: nat, concurrency: nat)
    | RunScope(ix: nat, position: nat)
    | Advance(ix: nat, outcome: Outcome)
    | Finish(ix: nat, failed: bool)
    | Crash(ix: nat)

  function Idle(): Indexer { Indexer([], None, None) }

  ghost predicate Init(s: System) {
    s.durable.None? && s.issued == map[] && s.log == [] && !s.panicked
    && forall i :: 0 <= i < |s.indexers| ==> s.indexers[i] == Idle()
  }

  function Load(durable: Option<Stored>): Cursor {
    match durable
    case None => Cursor(None, None)
    case Some(o) => Cursor(Some(o.value), Some(o.version))
  }

  /** The put condition: create when nothing was seen, else update that version. */
  predicate Matches(durable: Option<Stored>, version: Option<nat>) {
    match version
    case None => durable.None?
    case Some(v) => durable.Some? && durable.value.version == v
  }

  function SliceStart(x: Indexer): nat
    requires x.names != [] && x.cycle.Some?
  {
    StartIndex(x.names, x.cycle.value.begun)
  }

  /** Scopes in the current batch: a chunk of the fair slice. */
  function BatchLen(x: Indexer): nat
    requires x.cycle.Some?
  {
    var c := x.cycle.value;
    var left := SliceLen(|x.names|, c.budget) - c.done;
    if left <= 0 then 0 else if left < c.concurrency then left else c.concurrency
  }

  /** The registry position of the `o`th scope of the current batch. */
  function BatchAt(x: Indexer, o: nat): (p: nat)
    requires x.names != [] && x.cycle.Some?
    ensures p < |x.names|
  {
    Around(|x.names|, SliceStart(x), x.cycle.value.done + o)
  }

  predicate BatchDone(x: Indexer)
    requires x.names != [] && x.cycle.Some?
  {
    forall o :: 0 <= o < BatchLen(x) ==> BatchAt(x, o) in x.cycle.value.ran
  }

  predicate Running(x: Indexer) {
    x.names != [] && x.cycle.Some? && !x.cycle.value.stopped && BatchLen(x) > 0
  }

  /** The versions the store may hand out: one version never stands for two
      texts; with `unique`, no version is ever issued twice. */
  predicate VersionAllowed(s: System, unique: bool, version: nat, value: string) {
    version in s.issued ==> !unique && s.issued[version] == value
  }

  predicate OutcomeAllowed(s: System, unique: bool, cursor: Cursor, now: string, outcome: Outcome) {
    match outcome
    case Applied(v) => Matches(s.durable, cursor.version) && VersionAllowed(s, unique, v, now)
    case AppliedUnseen(v) => Matches(s.durable, cursor.version) && VersionAllowed(s, unique, v, now)
    case Rejected => !Matches(s.durable, cursor.version)
    case Failed => true
  }

  function BatchLast(x: Indexer): string
    requires Running(x)
  {
    x.names[BatchAt(x, BatchLen(x) - 1)]
  }

  ghost predicate Enabled(s: System, step: Step, unique: bool) {
    step.ix < |s.indexers| &&
    var x := s.indexers[step.ix];
    match step
    case Discover(_, names) => x.cycle.None? && x.names == [] && NoDup(names)
    case Begin(_, budget, concurrency) => x.cycle.None? && x.names != [] && 0 < concurrency && 0 < budget
    case RunScope(_, position) => Running(x) && exists o :: 0 <= o < BatchLen(x) && position == BatchAt(x, o)
    case Advance(_, outcome) =>
      Running(x) && BatchDone(x) &&
      (x.cycle.value.cursor.Some? ==> OutcomeAllowed(s, unique, x.cycle.value.cursor.value, BatchLast(x), outcome))
    case Finish(_, _) => x.cycle.Some? && x.names != [] && !Running(x)
    case Crash(_) => true
  }

  function WithIndexer(s: System, ix: nat, x: Indexer): System
    requires ix < |s.indexers|
  {
    s.(indexers := s.indexers[ix := x])
  }

  function WithEvent(s: System, e: Event): System { s.(log := s.log + [e]) }

  function Started(s: System, ix: nat, budget: nat, concurrency: nat): System
    requires ix < |s.indexers|
  {
    var x := s.indexers[ix];
    var cursor := if x.kept.Some? then x.kept.value else Load(s.durable);
    var cycle := Cycle(cursor.lastScope, budget, concurrency, Some(cursor), 0, {}, false, |s.log|);
    WithEvent(WithIndexer(s, ix, x.(kept := None, cycle := Some(cycle))), Began(ix, cursor.lastScope))
  }

  function ScopeRun(s: System, ix: nat, position: nat): System
    requires ix < |s.indexers| && s.indexers[ix].cycle.Some? && position < |s.indexers[ix].names|
  {
    var x := s.indexers[ix];
    var c := x.cycle.value;
    WithEvent(WithIndexer(s, ix, x.(cycle := Some(c.(ran := c.ran + {position})))), Ran(ix, x.names[position]))
  }

  /** The put itself, when it takes effect. */
  function Put(s: System, ix: nat, version: nat): System
    requires ix < |s.indexers| && Running(s.indexers[ix]) && s.indexers[ix].cycle.value.cursor.Some?
  {
    var x := s.indexers[ix];
    var now := BatchLast(x);
    var e := Wrote(ix, x.names, x.cycle.value.cursor.value.lastScope, now, BatchAt(x, 0), BatchLen(x));
    WithEvent(s, e).(durable := Some(Stored(now, version)), issued := s.issued[version := now])
  }

  /** The indexer's own view after the put: on success it goes on from the new
      cursor, otherwise it drops the cursor and stops the pass. */
  function Advanced(x: Indexer, version: nat, since: nat): Indexer
    requires Running(x)
  {
    var c := x.cycle.value;
    x.(cycle := Some(c.(
        cursor := Some(Cursor(Some(BatchLast(x)), Some(version))),
        done := c.done + BatchLen(x), ran := {}, since := since)))
  }

  function Dropped(x: Indexer): Indexer
    requires Running(x)
  {
    x.(cycle := Some(x.cycle.value.(cursor := None, stopped := true)))
  }

  /** Taking the cursor out of an empty option is a panic. */
  function Moved(s: System, ix: nat, outcome: Outcome): System
    requires ix < |s.indexers| && Running(s.indexers[ix])
  {
    var x := s.indexers[ix];
    if x.cycle.value.cursor.None? then s.(panicked := true)
    else
      match outcome
      case Applied(v) => WithIndexer(Put(s, ix, v), ix, Advanced(x, v, |s.log|))
      case AppliedUnseen(v) => WithIndexer(Put(s, ix, v), ix, Dropped(x))
      case Rejected => WithIndexer(s, ix, Dropped(x))
      case Failed => WithIndexer(s, ix, Dropped(x))
  }

  /** The cycle's end: the cursor is kept, if there still is one, and a reported
      sweep of a failure-free cycle discards the registry snapshot. */
  function Finished(x: Indexer, failed: bool): Indexer
    requires x.cycle.Some? && x.names != []
  {
    var c := x.cycle.value;
    var swept := Reports(x.names, c.begun, c.done);
    Indexer(if swept && !failed then [] else x.names, c.cursor, None)
  }

  ghost function Apply(s: System, step: Step, unique: bool): System
    requires Enabled(s, step, unique)
  {
    var x := s.indexers[step.ix];
    match step
    case Discover(ix, names) => WithIndexer(s, ix, x.(names := names))
    case Begin(ix, budget, concurrency) => Started(s, ix, budget, concurrency)
    case RunScope(ix, position) => ScopeRun(s, ix, position)
    case Advance(ix, outcome) => Moved(s, ix, outcome)
    case Finish(ix, failed) => WithIndexer(s, ix, Finished(x, failed))
    case Crash(ix) => WithIndexer(s, ix, Idle())
  }

  ghost predicate ValidRun(s: System, steps: seq<Step>, unique: bool)
    decreases |steps|
  {
    steps == [] || (Enabled(s, steps[0], unique) && ValidRun(Apply(s, steps[0], unique), steps[1..], unique))
  }

  ghost function Run(s: System, steps: seq<Step>, unique: bool): System
    requires ValidRun(s, steps, unique)
    decreases |steps|
  {
    if steps == [] then s else Run(Apply(s, steps[0], unique), steps[1..], unique)
  }
}
