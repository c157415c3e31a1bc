/** The per-call bootstrap every request handler runs before reaching the
    processor: caches, database, the instance account and instance rows,
    storage, workers and the cache-sweep task, with Go `defer`s undoing the
    caches and the workers in reverse order on the way out.

    A handler is a function from the outcomes of its stages (which stages
    fail) to the trace of calls it makes and what it returns. The trace is
    the body's calls followed by the deferred calls, last deferred first. */
module Bootstrap {
  import opened GoStd

  /** The stages that can fail a bootstrap, in the order they run. */
  datatype Stage = DbService | InstanceAccount | InstanceInstance | StorageBackend

  const Stages: seq<Stage> := [DbService, InstanceAccount, InstanceInstance, StorageBackend]

  /** A scheduler task as registered: its id, its start time (nanoseconds
      after the zero `time.Time`), its period in nanoseconds and the
      capacity percentage its cache sweep keeps. */
  datatype RecurringTask = RecurringTask(id: string, start: int, period: int, sweepPercent: int)

  /** `time.Minute` in nanoseconds. */
  const Minute: int := 60_000_000_000

  /** The task every handler registers: `"@cachesweep"`, from the zero
      time, once a minute, calling `Caches.Sweep(60)`. */
  const CacheSweep: RecurringTask := RecurringTask("@cachesweep", 0, Minute, 60)

  /** The worker lanes and the functions the processor offers for each. */
  datatype Lane = ClientAPI | FediAPI
  datatype LaneFunc = EnqueueFunc(lane: Lane) | ProcessFunc(lane: Lane)

  /** The four function fields of `state.Workers` a handler wires. */
  datatype LaneSlot = EnqueueSlot(lane: Lane) | ProcessSlot(lane: Lane)

  /** The processor media operations a handler can call. */
  datatype MediaCall = CreateMedia | UpdateMedia | GetMedia

  datatype Event =
    | CachesInit | CachesStart | CachesStop
    | OpenDb | CreateInstanceAccount | CreateInstanceInstance
    | OpenStorage(lockName: string)
    | BuildHttpClient
    | WorkersStart | WorkersStop
    | AddRecurring(task: RecurringTask)
    | BuildProcessor
    | SetLane(slot: LaneSlot, fn: LaneFunc)
    | CallMedia(call: MediaCall)
    | CallStatusCreate

  /** The call that attempts `s`. */
  function Attempt(s: Stage, lockName: string): Event {
    match s
    case DbService => OpenDb
    case InstanceAccount => CreateInstanceAccount
    case InstanceInstance => CreateInstanceInstance
    case StorageBackend => OpenStorage(lockName)
  }

  /** The index in `Stages` of the first stage in `failing`, or
      `|Stages|` when none of them fails. */
  function FirstFailure(failing: set<Stage>, from: nat := 0): (k: nat)
    requires from <= |Stages|
    ensures from <= k <= |Stages|
    ensures forall i :: from <= i < k ==> Stages[i] !in failing
    ensures k < |Stages| ==> Stages[k] in failing
    decreases |Stages| - from
  {
    if from == |Stages| then from
    else if Stages[from] in failing then from
    else FirstFailure(failing, from + 1)
  }

  /** Nothing fails exactly when the failing set is empty. */
  lemma NoFailure(failing: set<Stage>)
    ensures FirstFailure(failing) == |Stages| <==> failing == {}
  {
    if FirstFailure(failing) == |Stages| {
      forall s: Stage
        ensures s !in failing
      {
        assert s == Stages[0] || s == Stages[1] || s == Stages[2] || s == Stages[3];
      }
    }
  }

  /** The stages that run: every one up to and including the first that
      fails. */
  function Attempted(failing: set<Stage>, lockName: string): (r: seq<Event>)
    ensures |r| == Min(FirstFailure(failing) + 1, |Stages|)
    ensures forall i :: 0 <= i < |r| ==> r[i] == Attempt(Stages[i], lockName)
  {
    var n := Min(FirstFailure(failing) + 1, |Stages|);
    seq(n, i requires 0 <= i < n => Attempt(Stages[i], lockName))
  }

  /** A handler's progress: the calls made so far and the calls deferred,
      in the order the `defer` statements ran. */
  datatype Run = Run(trace: seq<Event>, deferred: seq<Event>)

  /** Returning from a handler runs the deferred calls, last first. */
  function Finish(r: Run): seq<Event> {
    r.trace + Reverse(r.deferred)
  }

  /** Where the shared start leaves a handler: its run, and the stage that
      failed, if any. */
  datatype Started = Started(run: Run, failed: Option<Stage>)

  /** The start shared by every handler, up to and including opening
      storage under `lockName`: caches are initialised and started (with
      their stop deferred), then each stage runs until one fails. */
  function StartStorage(lockName: string, failing: set<Stage>): (r: Started)
    ensures r.run.deferred == [CachesStop]
    ensures r.run.trace == [CachesInit, CachesStart] + Attempted(failing, lockName)
    ensures r.failed.None? <==> FirstFailure(failing) == |Stages|
    ensures r.failed.Some? ==> r.failed.value == Stages[FirstFailure(failing)]
  {
    var run := Run([CachesInit, CachesStart], [CachesStop]);
    var run := run.(trace := run.trace + [OpenDb]);
    if DbService in failing then Started(run, Some(DbService))
    else
      var run := run.(trace := run.trace + [CreateInstanceAccount]);
      if InstanceAccount in failing then Started(run, Some(InstanceAccount))
      else
        var run := run.(trace := run.trace + [CreateInstanceInstance]);
        if InstanceInstance in failing then Started(run, Some(InstanceInstance))
        else
          var run := run.(trace := run.trace + [OpenStorage(lockName)]);
          if StorageBackend in failing then Started(run, Some(StorageBackend))
          else Started(run, None)
  }

  /** After storage: workers start, with their stop deferred, and the cache
      sweep is registered (the registration's result is discarded). */
  function StartWorkers(run: Run): Run {
    Run(run.trace + [WorkersStart, AddRecurring(CacheSweep)], run.deferred + [WorkersStop])
  }

  predicate IsStop(e: Event) {
    e == CachesStop || e == WorkersStop
  }

  /** The calls a handler's defers make on return. */
  function Teardown(workersStarted: bool): seq<Event> {
    if workersStarted then [WorkersStop, CachesStop] else [CachesStop]
  }

  /** A trace torn down as the handlers promise: it ends by stopping the
      workers, if they were started, and then the caches; no stop happens
      anywhere else, so nothing else (database, storage) is closed. */
  predicate TornDown(t: seq<Event>) {
    var td := Teardown(WorkersStart in t);
    && |td| <= |t|
    && t[|t| - |td|..] == td
    && forall i :: 0 <= i < |t| - |td| ==> !IsStop(t[i])
  }

  /** A body with no stops of its own, finished with the caches' stop
      deferred (and the workers' after it, exactly when they started), is
      torn down. */
  lemma FinishTornDown(body: seq<Event>, workersStarted: bool)
    requires forall i :: 0 <= i < |body| ==> !IsStop(body[i])
    requires WorkersStart in body <==> workersStarted
    ensures var deferred := if workersStarted then [CachesStop, WorkersStop] else [CachesStop];
      TornDown(Finish(Run(body, deferred)))
  {
    var deferred := if workersStarted then [CachesStop, WorkersStop] else [CachesStop];
    var t := Finish(Run(body, deferred));
    assert Reverse(deferred) == Teardown(workersStarted);
    assert t[|body|..] == Teardown(workersStarted);
    assert WorkersStart in t <==> workersStarted by {
      if WorkersStart in t {
        var i :| 0 <= i < |t| && t[i] == WorkersStart;
        assert i < |body|;
        assert body[i] == WorkersStart;
      }
      if workersStarted {
        var i :| 0 <= i < |body| && body[i] == WorkersStart;
        assert t[i] == WorkersStart;
      }
    }
  }

  /** The first position of `e` in `t`. */
  function IndexOf<T(==)>(t: seq<T>, e: T): (i: nat)
    requires e in t
    ensures i < |t| && t[i] == e
    ensures forall j :: 0 <= j < i ==> t[j] != e
  {
    if t[0] == e then 0 else 1 + IndexOf(t[1..], e)
  }

  /** What a processor call produced: a value, or an error. */
  datatype Outcome<T> = Produced(value: T) | Rejected

  /** The pointer a handler keeps when it discards the processor's error:
      the value, or nil. */
  function Kept<T>(o: Outcome<T>): (r: Option<T>)
    ensures r.Some? <==> o.Produced?
    ensures r.Some? ==> r.value == o.value
  {
    match o
    case Produced(v) => Some(v)
    case Rejected => None
  }

  datatype HandlerError = StageFailed(stage: Stage) | InvalidMediaOperation | ProcessorFailed

  /** What a handler returned, and the calls it made. */
  datatype Reply<T> = Reply(trace: seq<Event>, value: Option<T>, err: Option<HandlerError>)

  /** Returning early because a stage failed: the error, no value, and the
      caches stopped. */
  function Abort<T>(run: Run, stage: Stage): Reply<T> {
    Reply(Finish(run), None, Some(StageFailed(stage)))
  }

  /** Every storage the trace opens uses the lock `lockName`. */
  predicate LocksWith(t: seq<Event>, lockName: string) {
    forall i :: 0 <= i < |t| && t[i].OpenStorage? ==> t[i].lockName == lockName
  }

  /** Returning with both stops deferred runs the workers' stop first. */
  lemma FinishBoth(trace: seq<Event>)
    ensures Finish(Run(trace, [CachesStop, WorkersStop])) == trace + [WorkersStop, CachesStop]
  {
    assert Reverse([CachesStop, WorkersStop]) == [WorkersStop, CachesStop];
  }

  /** A handler that stops at a failing stage has attempted the stages up to
      that one, stops its caches, and returns. */
  lemma AbortTrace(lockName: string, failing: set<Stage>)
    requires FirstFailure(failing) < |Stages|
    ensures var s := StartStorage(lockName, failing);
      && s.failed.Some?
      && Finish(s.run) == [CachesInit, CachesStart] + Attempted(failing, lockName) + [CachesStop]
      && TornDown(Finish(s.run))
      && LocksWith(Finish(s.run), lockName)
  {
    var s := StartStorage(lockName, failing);
    var body := s.run.trace;
    assert Reverse([CachesStop]) == [CachesStop];
    assert Finish(s.run) == body + [CachesStop];
    StartedHasNoStops(lockName, failing);
    FinishTornDown(body, false);
    AttemptedLocks(lockName, failing);
  }

  /** The stages attempted open storage only under `lockName`. */
  lemma AttemptedLocks(lockName: string, failing: set<Stage>)
    ensures LocksWith([CachesInit, CachesStart] + Attempted(failing, lockName) + [CachesStop], lockName)
  {
    var t := [CachesInit, CachesStart] + Attempted(failing, lockName) + [CachesStop];
    forall i | 0 <= i < |t| && t[i].OpenStorage?
      ensures t[i].lockName == lockName
    {
      if 2 <= i < |t| - 1 {
        assert t[i] == Attempt(Stages[i - 2], lockName);
      }
    }
  }

  /** The stop-free body of a started run. */
  lemma StartedHasNoStops(lockName: string, failing: set<Stage>)
    ensures var t := StartStorage(lockName, failing).run.trace;
      && (forall i :: 0 <= i < |t| ==> !IsStop(t[i]))
      && WorkersStart !in t
  {
  }

  /** The full successful start of a media handler: every stage, then the
      workers and the cache sweep. */
  function Booted(lockName: string): seq<Event> {
    [CachesInit, CachesStart, OpenDb, CreateInstanceAccount, CreateInstanceInstance,
     OpenStorage(lockName), WorkersStart, AddRecurring(CacheSweep), BuildProcessor]
  }

  /** A fully booted trace whose remaining body neither stops nor starts
      anything nor opens storage is torn down with both stops. */
  lemma BootedTornDown(boot: seq<Event>, lockName: string, tail: seq<Event>)
    requires forall i :: 0 <= i < |boot| ==> !IsStop(boot[i])
    requires WorkersStart in boot
    requires LocksWith(boot, lockName)
    requires forall i :: 0 <= i < |tail| ==> !IsStop(tail[i]) && tail[i] != WorkersStart && !tail[i].OpenStorage?
    ensures TornDown(boot + tail + [WorkersStop, CachesStop])
    ensures LocksWith(boot + tail + [WorkersStop, CachesStop], lockName)
  {
    var body := boot + tail;
    assert WorkersStart in body by {
      var i :| 0 <= i < |boot| && boot[i] == WorkersStart;
      assert body[i] == WorkersStart;
    }
    FinishTornDown(body, true);
    FinishBoth(body);
  }

  /** A booted media handler calls the processor's `call` and returns. */
  function MediaCalled(run: Run, lockName: string, call: MediaCall): (t: seq<Event>)
    requires run.trace == Booted(lockName) && run.deferred == [CachesStop, WorkersStop]
    ensures TornDown(t) && LocksWith(t, lockName)
    ensures t == Booted(lockName) + [CallMedia(call), WorkersStop, CachesStop]
  {
    BootedTornDown(run.trace, lockName, [CallMedia(call)]);
    var run := run.(trace := run.trace + [CallMedia(call)]);
    FinishBoth(run.trace);
    Finish(run)
  }
}
