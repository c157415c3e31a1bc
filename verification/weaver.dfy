/** The Service Weaver request handlers: `mediaRequestHandler.DoOperation`
    (internal/weaver/media.go) and `statusRequestHandler.DoOperation`
    (internal/weaver/status.go). Each bootstraps a fresh state, calls the
    processor once and discards the processor's error. */
module WeaverHandlers {
  import opened GoStd
  import opened Bootstrap

  /** `typeutils.RandStringRunes(5) + ".lock"`: the random token is an input. */
  function LockName(token: string): (r: string)
    requires |token| == 5
    ensures |r| == 10 && r[..5] == token && r[5..] == ".lock"
  {
    token + ".lock"
  }

  /** `MediaRequestOperation`: 0, 1 and 2 name create, update and get. */
  predicate ValidOp(op: int) {
    0 <= op <= 2
  }

  function Dispatch(op: int): (call: MediaCall)
    requires ValidOp(op)
    ensures op == 0 <==> call == CreateMedia
    ensures op == 1 <==> call == UpdateMedia
    ensures op == 2 <==> call == GetMedia
  {
    if op == 0 then CreateMedia else if op == 1 then UpdateMedia else GetMedia
  }

  /** `mediaRequestHandler.DoOperation`. `token` is the random lock-name
      token, `failing` the stages that fail, and `outcome` what each
      processor media call would produce. */
  function MediaDoOperation<A>(token: string, failing: set<Stage>, op: int, outcome: MediaCall -> Outcome<A>)
    : (r: Reply<A>)
    requires |token| == 5
    ensures TornDown(r.trace)
    ensures LocksWith(r.trace, LockName(token))
    ensures r.err.None? <==> failing == {} && ValidOp(op)
    ensures r.err.None? ==> r.value == Kept(outcome(Dispatch(op)))
    ensures r.err.Some? ==> r.value.None?
    ensures FirstFailure(failing) < |Stages| ==>
      && r.err == Some(StageFailed(Stages[FirstFailure(failing)]))
      && r.value.None?
      && r.trace == [CachesInit, CachesStart] + Attempted(failing, LockName(token)) + [CachesStop]
    ensures failing == {} && !ValidOp(op) ==>
      && r.err == Some(InvalidMediaOperation)
      && r.trace == Booted(LockName(token)) + [WorkersStop, CachesStop]
    ensures failing == {} && ValidOp(op) ==>
      r.trace == Booted(LockName(token)) + [CallMedia(Dispatch(op)), WorkersStop, CachesStop]
  {
    var lock := LockName(token);
    var started := StartStorage(lock, failing);
    if started.failed.Some? then
      AbortTrace(lock, failing);
      Abort(started.run, started.failed.value)
    else
      NoFailure(failing);
      Dispatched(StartWorkers(started.run), lock, op, outcome)
  }

  /** The media handler after a successful start of storage: workers, the
      sweep, the processor, and the call `op` names, if any. */
  function Dispatched<A>(run: Run, lockName: string, op: int, outcome: MediaCall -> Outcome<A>): (r: Reply<A>)
    requires run.trace == Booted(lockName)[..8] && run.deferred == [CachesStop, WorkersStop]
    ensures TornDown(r.trace) && LocksWith(r.trace, lockName)
    ensures r.err.None? <==> ValidOp(op)
    ensures ValidOp(op) ==>
      r.value == Kept(outcome(Dispatch(op)))
      && r.trace == Booted(lockName) + [CallMedia(Dispatch(op)), WorkersStop, CachesStop]
    ensures !ValidOp(op) ==>
      r.err == Some(InvalidMediaOperation)
      && r.value.None?
      && r.trace == Booted(lockName) + [WorkersStop, CachesStop]
  {
    var run := run.(trace := run.trace + [BuildProcessor]);
    assert run.trace == Booted(lockName);
    if !ValidOp(op) then
      BootedTornDown(run.trace, lockName, []);
      FinishBoth(run.trace);
      assert run.trace + [] == run.trace;
      Reply(Finish(run), None, Some(InvalidMediaOperation))
    else
      var call := Dispatch(op);
      Reply(MediaCalled(run, lockName, call), Kept(outcome(call)), None)
  }

  /** The field of `state.Workers` each processor function belongs in:
      enqueue into enqueue, process into process, on the same lane. */
  function Wired(slot: LaneSlot): LaneFunc {
    match slot
    case EnqueueSlot(lane) => EnqueueFunc(lane)
    case ProcessSlot(lane) => ProcessFunc(lane)
  }

  /** The four lane assignments, in source order. */
  const LaneWiring: seq<Event> := [
    SetLane(EnqueueSlot(ClientAPI), EnqueueFunc(ClientAPI)),
    SetLane(EnqueueSlot(FediAPI), EnqueueFunc(FediAPI)),
    SetLane(ProcessSlot(ClientAPI), ProcessFunc(ClientAPI)),
    SetLane(ProcessSlot(FediAPI), ProcessFunc(FediAPI))]

  /** The status handler's successful run up to the processor call. */
  function StatusBooted(lockName: string): seq<Event> {
    [CachesInit, CachesStart, OpenDb, CreateInstanceAccount, CreateInstanceInstance,
     OpenStorage(lockName), BuildHttpClient, WorkersStart, AddRecurring(CacheSweep), BuildProcessor]
    + LaneWiring
  }

  /** `statusRequestHandler.DoOperation`. `created` is what
      `Status().Create` would produce. */
  function StatusDoOperation<S>(token: string, failing: set<Stage>, created: Outcome<S>): (r: Reply<S>)
    requires |token| == 5
    ensures TornDown(r.trace)
    ensures LocksWith(r.trace, LockName(token))
    ensures r.err.None? <==> failing == {}
    ensures r.err.None? ==> r.value == Kept(created)
    ensures FirstFailure(failing) < |Stages| ==>
      && r.err == Some(StageFailed(Stages[FirstFailure(failing)]))
      && r.value.None?
      && r.trace == [CachesInit, CachesStart] + Attempted(failing, LockName(token)) + [CachesStop]
    ensures failing == {} ==> r.trace == StatusTrace(LockName(token))
  {
    var lock := LockName(token);
    var started := StartStorage(lock, failing);
    if started.failed.Some? then
      AbortTrace(lock, failing);
      Abort(started.run, started.failed.value)
    else
      NoFailure(failing);
      Served(started.run, lock, created)
  }

  /** The status handler after a successful start of storage: the HTTP
      client, workers, the sweep, the processor, the lane wiring and the
      call to `Status().Create`. */
  function Served<S>(run: Run, lockName: string, created: Outcome<S>): (r: Reply<S>)
    requires run.trace == StatusBooted(lockName)[..6] && run.deferred == [CachesStop]
    ensures TornDown(r.trace) && LocksWith(r.trace, lockName)
    ensures r == Reply(StatusTrace(lockName), Kept(created), None)
  {
    var run := run.(trace := run.trace + [BuildHttpClient]);
    var run := StartWorkers(run);
    var run := run.(trace := run.trace + [BuildProcessor] + LaneWiring + [CallStatusCreate]);
    assert run.trace == StatusBooted(lockName) + [CallStatusCreate];
    BootedTornDown(StatusBooted(lockName), lockName, [CallStatusCreate]);
    FinishBoth(run.trace);
    Reply(Finish(run), Kept(created), None)
  }

  /** The whole trace of a successful status call. */
  function StatusTrace(lockName: string): (t: seq<Event>)
    ensures t == StatusBooted(lockName) + [CallStatusCreate, WorkersStop, CachesStop]
  {
    [CachesInit, CachesStart, OpenDb, CreateInstanceAccount, CreateInstanceInstance,
     OpenStorage(lockName), BuildHttpClient, WorkersStart, AddRecurring(CacheSweep), BuildProcessor,
     SetLane(EnqueueSlot(ClientAPI), EnqueueFunc(ClientAPI)),
     SetLane(EnqueueSlot(FediAPI), EnqueueFunc(FediAPI)),
     SetLane(ProcessSlot(ClientAPI), ProcessFunc(ClientAPI)),
     SetLane(ProcessSlot(FediAPI), ProcessFunc(FediAPI)),
     CallStatusCreate, WorkersStop, CachesStop]
  }

  /** `IndexOf` is the unique first position. */
  lemma IndexAt(t: seq<Event>, e: Event, k: nat)
    requires k < |t| && t[k] == e
    requires forall j :: 0 <= j < k ==> t[j] != e
    ensures IndexOf(t, e) == k
  {
  }

  /** A successful status call builds the HTTP client between opening
      storage and starting the workers, and wires every lane slot to the
      processor function of the same kind and lane (no lane event puts any
      other function anywhere) after the workers start and before
      `Status().Create`. */
  lemma StatusWiring<S>(token: string, created: Outcome<S>)
    requires |token| == 5
    ensures var t := StatusDoOperation(token, {}, created).trace;
      && OpenStorage(LockName(token)) in t && BuildHttpClient in t
      && WorkersStart in t && CallStatusCreate in t
      && IndexOf(t, OpenStorage(LockName(token))) < IndexOf(t, BuildHttpClient) < IndexOf(t, WorkersStart)
      && (forall slot: LaneSlot ::
            && SetLane(slot, Wired(slot)) in t
            && IndexOf(t, WorkersStart) < IndexOf(t, SetLane(slot, Wired(slot))) < IndexOf(t, CallStatusCreate))
      && (forall e :: e in t && e.SetLane? ==> e.fn == Wired(e.slot))
  {
    NoFailure({});
    BootOrder(LockName(token));
    CallOrder(LockName(token));
    LaneOrder(LockName(token));
    LanesUncrossed(LockName(token));
  }

  /** The positions of the status trace's bootstrap events. */
  lemma BootOrder(lock: string)
    ensures var t := StatusTrace(lock);
      && OpenStorage(lock) in t && BuildHttpClient in t
      && WorkersStart in t
      && IndexOf(t, OpenStorage(lock)) == 5
      && IndexOf(t, BuildHttpClient) == 6
      && IndexOf(t, WorkersStart) == 7
  {
    var t := StatusTrace(lock);
    assert t[5] == OpenStorage(lock);
    IndexAt(t, OpenStorage(lock), 5);
    IndexAt(t, BuildHttpClient, 6);
    IndexAt(t, WorkersStart, 7);
  }

  /** The position of the status trace's processor call. */
  lemma CallOrder(lock: string)
    ensures CallStatusCreate in StatusTrace(lock) && IndexOf(StatusTrace(lock), CallStatusCreate) == 14
  {
    IndexAt(StatusTrace(lock), CallStatusCreate, 14);
  }

  /** The positions of the status trace's lane events. */
  lemma LaneOrder(lock: string)
    ensures var t := StatusTrace(lock);
      forall slot: LaneSlot ::
        SetLane(slot, Wired(slot)) in t && 10 <= IndexOf(t, SetLane(slot, Wired(slot))) < 14
  {
    var t := StatusTrace(lock);
    forall slot: LaneSlot
      ensures SetLane(slot, Wired(slot)) in t && 10 <= IndexOf(t, SetLane(slot, Wired(slot))) < 14
    {
      match slot
      case EnqueueSlot(ClientAPI) => IndexAt(t, SetLane(slot, Wired(slot)), 10);
      case EnqueueSlot(FediAPI) => IndexAt(t, SetLane(slot, Wired(slot)), 11);
      case ProcessSlot(ClientAPI) => IndexAt(t, SetLane(slot, Wired(slot)), 12);
      case ProcessSlot(FediAPI) => IndexAt(t, SetLane(slot, Wired(slot)), 13);
    }
  }

  /** No lane event of the status trace crosses kinds or lanes. */
  lemma LanesUncrossed(lock: string)
    ensures forall e :: e in StatusTrace(lock) && e.SetLane? ==> e.fn == Wired(e.slot)
  {
  }

  /** An unknown operation is reported only after the whole bootstrap has
      run, and the processor is never called. */
  lemma InvalidOpAfterBootstrap<A>(token: string, op: int, outcome: MediaCall -> Outcome<A>)
    requires |token| == 5
    requires !ValidOp(op)
    ensures var r := MediaDoOperation(token, {}, op, outcome);
      && r.err == Some(InvalidMediaOperation)
      && AddRecurring(CacheSweep) in r.trace
      && forall i :: 0 <= i < |r.trace| ==> !r.trace[i].CallMedia?
  {
    NoFailure({});
    var r := MediaDoOperation(token, {}, op, outcome);
    var t := Booted(LockName(token)) + [WorkersStop, CachesStop];
    assert r.trace == t;
    assert t[7] == AddRecurring(CacheSweep);
    forall i | 0 <= i < |t|
      ensures !t[i].CallMedia?
    {
      if i < 9 {
        assert t[i] == Booted(LockName(token))[i];
      }
    }
  }
}
