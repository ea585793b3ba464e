// The shutdown protocol of the web server as a transition system.
//
// Every block under the lifecycle mutex is one step, and so is every operation on the
// atomic slot counter or on the connection registry.  The accept coroutine and the drain
// timer's coroutine share a strand: between two suspension points neither interrupts the
// other.  Connection handlers and outside callers interleave with everything.
module Server {

  type Id = nat      // connection registry ids
  type Caller = nat  // calls of BeginGracefulStop and ForceStop from outside

  // Where the accept coroutine stands.
  datatype AcceptPc =
    | Spawned             // not yet running
    | Starting            // before the start result is published
    | Published           // before the check for a stop during start-up
    | Accepting           // suspended in async_accept
    | GotError            // accept failed, stop flag not yet read
    | RetryWait           // suspended in the retry timer
    | GotSocket           // accepted, stop flag not yet read
    | Checked             // first check passed
    | Loaded(seen: int)   // in the compare-exchange loop
    | Holding             // slot taken, stop flag not yet read again
    | Returning           // second check failed, slot not yet given back
    | Cleared             // second check passed, connection not yet registered
    | Registered(id: Id)  // registered, handler not yet spawned
    | LaunchFailed        // launching threw, slot not yet given back
    | Unwinding           // building the stream threw, slot not yet given back
    | Leaving             // left the loop, run not yet marked complete
    | Crashing            // an exception is on its way to the handler
    | CrashClosing        // the handler has set the flags
    | Finished

  datatype ConnPc =
    | Running       // the handler is at work
    | SocketClosed  // socket closed, entry still registered
    | Removed       // entry removed, slot not yet given back
    | Released

  datatype DrainPc =
    | NoDrain
    | Unspawned(armer: Caller)  // armed, coroutine not yet spawned
    | Ready                  // spawned
    | Sleeping               // suspended in the timer
    | Expired                // the deadline has fired
    | Forcing                // about to call ForceStop
    | ForceClosing           // ForceStop has set the flags
    | ForceFinishing         // ForceStop has closed the connections
    | Completing             // before CompleteDrainTimer
    | DrainDone

  datatype CallerPc =
    | GracefulCalled   // before the first look at the flags
    | GracefulChecked  // timer made, before the second look
    | Spawning         // armed the timer, has to spawn its coroutine
    | ForceCalled      // before the flags are set
    | ForceClosingAll  // before the connections are closed
    | Returned

  datatype Thread = AcceptThread | DrainThread | ConnThread(id: Id) | CallerThread(caller: Caller)

  datatype State = State(
    stopping: bool, startComplete: bool, runComplete: bool, force: bool,
    timerActive: bool, stopRequested: bool,
    cancelled: bool,        // a cancellation of the drain timer is on its way to the strand
    max: nat, slots: int,
    registry: set<Id>, nextId: Id, closing: set<Id>, // closing: close operation dispatched
    accept: AcceptPc, drain: DrainPc, conns: map<Id, ConnPc>, callers: map<Caller, CallerPc>,
    owing: set<Thread>,     // threads that still have to run MaybeFinishGracefulStop
    stoppers: set<Thread>,  // threads that found the server drained and call Executor::Stop next
    swept: bool,            // some CloseAll has happened
    noTimer: bool)          // BeginGracefulStop found no slot taken and armed no timer

  function Init(max: nat): State {
    State(false, false, false, false, false, false, false, max, 0, {}, 1, {},
          Spawned, NoDrain, map[], map[], {}, {}, false, false)
  }

  datatype AcceptStep =
    | RunBegins | StartFails | PublishStart | CheckStartup
    | AcceptReturns(ok: bool) | CheckAfterError(aborted: bool) | RetryElapses
    | CheckAfterAccept | OptionFails | LoadSlots | CompareExchange(spurious: bool)
    | CheckAfterAcquire | GiveBack | Register | Launch | LaunchThrows | LaunchGivesBack
    | StreamThrows | UnwindGivesBack | MarkRunComplete | CrashSetsFlags | CrashClosesAll

  datatype ConnStep = CloseSocket | RemoveEntry | ReleaseSlot

  datatype DrainStep =
    | DrainStarts | DrainExpires | CancelArrives | DrainChecks | DrainSetsFlags | DrainClosesAll
    | DrainForced | CompleteDrainTimer

  datatype CallStep =
    | CallGraceful | GracefulChecks | GracefulSets | GracefulSpawns
    | CallForce | ForceSets | ForceClosesAll

  datatype FinishStep = FinishCheck | StopExecutor

  datatype Action =
    | Accept(a: AcceptStep)
    | Conn(id: Id, c: ConnStep)
    | Drain(d: DrainStep)
    | Call(k: Caller, o: CallStep)
    | Finish(t: Thread, f: FinishStep)

  // The accept coroutine or the drain coroutine is between two suspension points.
  predicate AcceptOnStrand(a: AcceptPc) {
    !(a.Spawned? || a.Accepting? || a.RetryWait? || a.Finished?)
  }

  predicate DrainOnStrand(d: DrainPc) {
    d.Expired? || d.Forcing? || d.ForceClosing? || d.ForceFinishing? || d.Completing?
  }

  predicate At<T(==)>(m: map<nat, T>, k: nat, v: T) {
    k in m && m[k] == v
  }

  predicate Busy(s: State, t: Thread) {
    t in s.owing || t in s.stoppers
  }

  predicate AcceptEnabled(s: State, a: AcceptStep) {
    match a
    case RunBegins => s.accept.Spawned? && !DrainOnStrand(s.drain)
    case StartFails => s.accept.Starting?
    case PublishStart => s.accept.Starting?
    case CheckStartup => s.accept.Published?
    case AcceptReturns(_) => s.accept.Accepting? && !DrainOnStrand(s.drain)
    case CheckAfterError(_) => s.accept.GotError?
    case RetryElapses => s.accept.RetryWait? && !DrainOnStrand(s.drain)
    case CheckAfterAccept => s.accept.GotSocket?
    case OptionFails => s.accept.Checked?
    case LoadSlots => s.accept.Checked?
    case CompareExchange(_) => s.accept.Loaded?
    case CheckAfterAcquire => s.accept.Holding?
    case GiveBack => s.accept.Returning?
    case Register => s.accept.Cleared?
    case Launch => s.accept.Registered?
    case LaunchThrows => s.accept.Cleared? || s.accept.Registered?
    case LaunchGivesBack => s.accept.LaunchFailed?
    case StreamThrows => s.accept.Cleared?
    case UnwindGivesBack => s.accept.Unwinding?
    case MarkRunComplete => s.accept.Leaving?
    case CrashSetsFlags => s.accept.Crashing?
    case CrashClosesAll => s.accept.CrashClosing?
  }

  predicate ConnEnabled(s: State, id: Id, c: ConnStep) {
    match c
    case CloseSocket => At(s.conns, id, Running)
    case RemoveEntry => At(s.conns, id, SocketClosed)
    case ReleaseSlot => At(s.conns, id, Removed)
  }

  predicate DrainEnabled(s: State, d: DrainStep) {
    match d
    case DrainStarts => s.drain.Ready? && !AcceptOnStrand(s.accept)
    case DrainExpires => s.drain.Sleeping? && !AcceptOnStrand(s.accept)
    case CancelArrives => s.cancelled && !AcceptOnStrand(s.accept) && !DrainOnStrand(s.drain)
    case DrainChecks => s.drain.Expired?
    case DrainSetsFlags => s.drain.Forcing?
    case DrainClosesAll => s.drain.ForceClosing?
    case DrainForced => s.drain.ForceFinishing? && !Busy(s, DrainThread)
    case CompleteDrainTimer => s.drain.Completing?
  }

  predicate CallEnabled(s: State, k: Caller, o: CallStep) {
    match o
    case CallGraceful => k !in s.callers
    case GracefulChecks => At(s.callers, k, GracefulCalled)
    case GracefulSets => At(s.callers, k, GracefulChecked)
    case GracefulSpawns => At(s.callers, k, Spawning)
    case CallForce => k !in s.callers
    case ForceSets => At(s.callers, k, ForceCalled)
    case ForceClosesAll => At(s.callers, k, ForceClosingAll)
  }

  predicate Enabled(s: State, a: Action) {
    match a
    case Accept(x) => AcceptEnabled(s, x)
    case Conn(id, x) => ConnEnabled(s, id, x)
    case Drain(x) => DrainEnabled(s, x)
    case Call(k, x) => CallEnabled(s, k, x)
    case Finish(t, x) => if x.FinishCheck? then t in s.owing else t in s.stoppers
  }

  predicate Drained(s: State) {
    s.stopping && s.runComplete && s.slots == 0
  }

  // ConnectionRegistry::CloseAll: every registered connection is told to close.
  function CloseAll(s: State): State {
    s.(registry := {}, closing := s.closing + s.registry, swept := true)
  }

  function Owe(s: State, t: Thread): State {
    s.(owing := s.owing + {t})
  }

  function DoAccept(s: State, a: AcceptStep): State
    requires AcceptEnabled(s, a)
  {
    match a
    case RunBegins => s.(accept := Starting)
    case StartFails => s.(accept := Crashing)
    case PublishStart => s.(startComplete := true, accept := Published)
    case CheckStartup => s.(accept := if s.stopping then Leaving else Accepting)
    case AcceptReturns(ok) => s.(accept := if ok then GotSocket else GotError)
    case CheckAfterError(aborted) => s.(accept := if s.stopping || aborted then Leaving else RetryWait)
    case RetryElapses => s.(accept := Accepting)
    case CheckAfterAccept => s.(accept := if s.stopping then Leaving else Checked)
    case OptionFails => s.(accept := Accepting)
    case LoadSlots => s.(accept := Loaded(s.slots))
    case CompareExchange(spurious) =>
      var taken := s.accept.seen < s.max && s.slots == s.accept.seen && !spurious;
      s.(slots := if taken then s.slots + 1 else s.slots,
         accept := if s.accept.seen >= s.max then Accepting else if taken then Holding else Loaded(s.slots))
    case CheckAfterAcquire => s.(accept := if s.stopping then Returning else Cleared)
    case GiveBack => s.(slots := s.slots - 1, accept := Leaving)
    case Register => s.(registry := s.registry + {s.nextId}, nextId := s.nextId + 1, accept := Registered(s.nextId))
    case Launch => s.(conns := s.conns[s.accept.id := Running], accept := Accepting)
    case LaunchThrows =>
      s.(registry := if s.accept.Registered? then s.registry - {s.accept.id} else s.registry, accept := LaunchFailed)
    case LaunchGivesBack => s.(slots := s.slots - 1, accept := Accepting)
    case StreamThrows => s.(accept := Unwinding)
    case UnwindGivesBack => s.(slots := s.slots - 1, accept := Crashing)
    case MarkRunComplete => Owe(s.(runComplete := true, accept := Finished), AcceptThread)
    case CrashSetsFlags =>
      s.(startComplete := true, stopping := true, force := true, runComplete := true,
         cancelled := s.cancelled || s.timerActive, accept := CrashClosing)
    case CrashClosesAll => Owe(CloseAll(s).(accept := Finished), AcceptThread)
  }

  function DoConn(s: State, id: Id, c: ConnStep): State
    requires ConnEnabled(s, id, c)
  {
    match c
    case CloseSocket => s.(conns := s.conns[id := SocketClosed])
    case RemoveEntry => s.(registry := s.registry - {id}, conns := s.conns[id := Removed])
    case ReleaseSlot => Owe(s.(slots := s.slots - 1, conns := s.conns[id := Released]), ConnThread(id))
  }

  function DoDrain(s: State, d: DrainStep): State
    requires DrainEnabled(s, d)
  {
    match d
    case DrainStarts => s.(drain := if s.force then Completing else Sleeping)
    case DrainExpires => s.(drain := Expired)
    case CancelArrives => s.(cancelled := false, drain := if s.drain.Sleeping? then Completing else s.drain)
    case DrainChecks => s.(drain := if s.force then Completing else Forcing)
    case DrainSetsFlags =>
      s.(stopping := true, force := true, startComplete := true, cancelled := s.cancelled || s.timerActive,
         drain := ForceClosing)
    case DrainClosesAll => Owe(CloseAll(s).(drain := ForceFinishing), DrainThread)
    case DrainForced => s.(drain := Completing)
    case CompleteDrainTimer => Owe(s.(timerActive := false, drain := DrainDone), DrainThread)
  }

  function DoCall(s: State, k: Caller, o: CallStep): State
    requires CallEnabled(s, k, o)
  {
    match o
    case CallGraceful => s.(callers := s.callers[k := GracefulCalled])
    case GracefulChecks => s.(callers := s.callers[k := if s.stopping then Returned else GracefulChecked])
    case GracefulSets =>
      if s.stopping then s.(callers := s.callers[k := Returned])
      else if s.slots > 0 then
        s.(stopping := true, startComplete := true, timerActive := true,
           drain := Unspawned(k), callers := s.callers[k := Spawning])
      else
        Owe(s.(stopping := true, startComplete := true, noTimer := true, callers := s.callers[k := Returned]),
            CallerThread(k))
    case GracefulSpawns => s.(drain := Ready, callers := s.callers[k := Returned])
    case CallForce => s.(callers := s.callers[k := ForceCalled])
    case ForceSets =>
      s.(stopping := true, force := true, startComplete := true, cancelled := s.cancelled || s.timerActive,
         callers := s.callers[k := ForceClosingAll])
    case ForceClosesAll => Owe(CloseAll(s).(callers := s.callers[k := Returned]), CallerThread(k))
  }

  // MaybeFinishGracefulStop: the look at the flags under the lock, which with the timer active
  // only cancels the timer, and then the call of Executor::Stop.
  function DoFinish(s: State, t: Thread, f: FinishStep): State {
    match f
    case FinishCheck =>
      s.(owing := s.owing - {t}, cancelled := s.cancelled || (Drained(s) && s.timerActive),
         stoppers := if Drained(s) && !s.timerActive then s.stoppers + {t} else s.stoppers)
    case StopExecutor => s.(stoppers := s.stoppers - {t}, stopRequested := true)
  }

  function Do(s: State, a: Action): State
    requires Enabled(s, a)
  {
    match a
    case Accept(x) => DoAccept(s, x)
    case Conn(id, x) => DoConn(s, id, x)
    case Drain(x) => DoDrain(s, x)
    case Call(k, x) => DoCall(s, k, x)
    case Finish(t, x) => DoFinish(s, t, x)
  }

  // What the proof carries along every run.

  predicate AcceptHoldsSlot(a: AcceptPc) {
    a.Holding? || a.Returning? || a.Cleared? || a.Registered? || a.LaunchFailed? || a.Unwinding?
  }

  predicate HoldsSlot(c: ConnPc) {
    !c.Released?
  }

  function Holders(conns: map<Id, ConnPc>): set<Id> {
    set id | id in conns && HoldsSlot(conns[id])
  }

  // The accept coroutine has passed its last look at the stop flag and will launch a connection.
  predicate PastLastCheck(a: AcceptPc) {
    a.Cleared? || a.Registered?
  }

  predicate DrainOutstanding(d: DrainPc) {
    !d.NoDrain? && !d.DrainDone?
  }

  // The connection is launched, or registered to be, and its handler has not removed its entry.
  predicate Open(conns: map<Id, ConnPc>, a: AcceptPc, id: Id) {
    At(conns, id, Running) || At(conns, id, SocketClosed) || a == Registered(id)
  }

  // The counter is the number of slot holders and stays within the limit.
  predicate Counted(slots: int, max: nat, conns: map<Id, ConnPc>, a: AcceptPc) {
    slots == |Holders(conns)| + Held(a) && slots <= max
  }

  ghost predicate Ids(conns: map<Id, ConnPc>, nextId: Id, a: AcceptPc, registry: set<Id>, closing: set<Id>) {
    && (forall id | id in conns || id in registry || id in closing :: id < nextId)
    && (a.Registered? ==> a.id < nextId && a.id !in conns)
  }

  predicate Flags(s: State) {
    && (s.runComplete <==> s.accept.CrashClosing? || s.accept.Finished?)
    && (s.timerActive <==> DrainOutstanding(s.drain))
    && (!s.drain.NoDrain? || s.noTimer || s.accept.CrashClosing? ==> s.stopping)
    && !(AcceptOnStrand(s.accept) && DrainOnStrand(s.drain))
  }

  // Only the call that armed the timer spawns its coroutine.
  predicate OneArmer(callers: map<Caller, CallerPc>, d: DrainPc) {
    && (forall k | k in callers :: callers[k].Spawning? ==> d == Unspawned(k))
    && (d.Unspawned? ==> At(callers, d.armer, Spawning))
  }

  ghost predicate Any(ts: set<Thread>) {
    exists t :: t in ts
  }

  ghost predicate SafeStop(s: State) {
    s.stopRequested || Any(s.stoppers) ==> Drained(s) && !s.timerActive
  }

  // Who forces a stop has set the flags before the sweep.
  predicate ForcedStops(s: State) {
    forall k | k in s.callers :: s.callers[k].ForceClosingAll? ==> s.stopping
  }

  ghost predicate SomeForcing(callers: map<Caller, CallerPc>) {
    exists k :: At(callers, k, ForceClosingAll)
  }

  // Some thread has still to run MaybeFinishGracefulStop.
  ghost predicate Owed(s: State) {
    Any(s.owing) || s.accept.CrashClosing? || SomeForcing(s.callers)
  }

  ghost predicate NoLostStop(s: State) {
    Drained(s) && !s.timerActive ==> s.stopRequested || Any(s.stoppers) || Owed(s)
  }

  // Every open connection is registered or has been told to close.
  ghost predicate Registration(conns: map<Id, ConnPc>, a: AcceptPc, registry: set<Id>, closing: set<Id>, swept: bool) {
    && (forall id | Open(conns, a, id) :: id in registry || id in closing)
    && (!swept ==> closing == {} && forall id :: id in registry <==> Open(conns, a, id))
  }

  predicate NoLaunchWithoutTimer(s: State) {
    s.noTimer ==> s.stopping && !PastLastCheck(s.accept)
  }

  ghost predicate Inv(s: State) {
    Counted(s.slots, s.max, s.conns, s.accept) && Protocol(s)
  }

  ghost predicate Protocol(s: State) {
    && Ids(s.conns, s.nextId, s.accept, s.registry, s.closing)
    && OneArmer(s.callers, s.drain) && Flags(s) && ForcedStops(s) && SafeStop(s) && NoLostStop(s)
    && Registration(s.conns, s.accept, s.registry, s.closing, s.swept) && NoLaunchWithoutTimer(s)
  }

  lemma InitInv(max: nat)
    ensures Inv(Init(max))
  {
    assert Holders(map[]) == {};
  }

  // Nobody holds a slot.
  predicate Idle(s: State) {
    !AcceptHoldsSlot(s.accept) && forall id | id in s.conns :: s.conns[id].Released?
  }

  lemma CountedZero(s: State)
    requires Counted(s.slots, s.max, s.conns, s.accept) && s.slots <= 0
    ensures Idle(s)
  {
    assert Holders(s.conns) == {};
    forall id | id in s.conns ensures s.conns[id].Released? {
      assert id !in Holders(s.conns);
    }
  }

  function Held(a: AcceptPc): nat {
    if AcceptHoldsSlot(a) then 1 else 0
  }

  // The accept coroutine takes a slot only below the limit and hands it to the connection it launches.
  predicate SlotMoves(s: State, s': State, x: AcceptStep) {
    && s'.slots - Held(s'.accept) == s.slots - Held(s.accept) + (if x.Launch? then 1 else 0)
    && s'.max == s.max && (s.slots <= s.max ==> s'.slots <= s.max)
  }

  // What no step undoes: a stop is final, and after it only a connection that was past the
  // last check can still be launched.
  ghost predicate Follows(s: State, s': State) {
    && s'.max == s.max && (s.stopping ==> s'.stopping) && (s.stopRequested ==> s'.stopRequested)
    && (forall id | id in s.closing :: id in s'.closing)
    && (s.stopping && !PastLastCheck(s.accept) ==> !PastLastCheck(s'.accept) && s'.conns.Keys == s.conns.Keys)
    && (s.stopping && !s.accept.Cleared? ==>
         && !s'.accept.Cleared?
         && forall id | Open(s'.conns, s'.accept, id) :: Open(s.conns, s.accept, id))
    && (Drained(s) && Idle(s) ==> Drained(s') && s'.conns == s.conns)
  }

  ghost predicate AcceptGoal(s: State, s': State, x: AcceptStep) {
    && SlotMoves(s, s', x) && Protocol(s') && Follows(s, s')
    && if x.Launch? then s.accept.Registered? && s'.conns == s.conns[s.accept.id := Running] else s'.conns == s.conns
  }

  predicate StartStep(x: AcceptStep) {
    x.RunBegins? || x.StartFails? || x.PublishStart? || x.CheckStartup?
  }

  lemma StartKeeps(s: State, x: AcceptStep)
    requires Protocol(s) && (s.slots <= 0 ==> Idle(s)) && AcceptEnabled(s, x) && StartStep(x)
    ensures AcceptGoal(s, DoAccept(s, x), x)
  {
    var s' := DoAccept(s, x);
    if x.RunBegins? {
      assert AcceptGoal(s, s', x);
    } else if x.StartFails? {
      assert AcceptGoal(s, s', x);
    } else if x.PublishStart? {
      assert AcceptGoal(s, s', x);
    } else {
      assert AcceptGoal(s, s', x);
    }
  }

  predicate WaitStep(x: AcceptStep) {
    x.AcceptReturns? || x.CheckAfterError? || x.RetryElapses? || x.CheckAfterAccept? || x.OptionFails?
  }

  lemma WaitKeeps(s: State, x: AcceptStep)
    requires Protocol(s) && (s.slots <= 0 ==> Idle(s)) && AcceptEnabled(s, x) && WaitStep(x)
    ensures AcceptGoal(s, DoAccept(s, x), x)
  {
    var s' := DoAccept(s, x);
    if x.AcceptReturns? {
      assert AcceptGoal(s, s', x);
    } else if x.CheckAfterError? {
      assert AcceptGoal(s, s', x);
    } else if x.RetryElapses? {
      assert AcceptGoal(s, s', x);
    } else if x.CheckAfterAccept? {
      assert AcceptGoal(s, s', x);
    } else {
      assert AcceptGoal(s, s', x);
    }
  }

  predicate SlotStep(x: AcceptStep) {
    x.LoadSlots? || x.CompareExchange? || x.CheckAfterAcquire? || x.GiveBack?
  }

  lemma ExchangeKeeps(s: State, x: AcceptStep)
    requires Protocol(s) && AcceptEnabled(s, x) && x.CompareExchange?
    ensures AcceptGoal(s, DoAccept(s, x), x)
  {
    var s' := DoAccept(s, x);
    assert s' == s.(slots := s'.slots, accept := s'.accept);
    assert Protocol(s') && SlotMoves(s, s', x) && Follows(s, s');
  }

  lemma SlotKeeps(s: State, x: AcceptStep)
    requires Protocol(s) && AcceptEnabled(s, x) && SlotStep(x)
    ensures AcceptGoal(s, DoAccept(s, x), x)
  {
    var s' := DoAccept(s, x);
    if x.LoadSlots? {
      assert AcceptGoal(s, s', x);
    } else if x.CompareExchange? {
      ExchangeKeeps(s, x);
    } else if x.CheckAfterAcquire? {
      assert AcceptGoal(s, s', x);
    } else {
      assert AcceptGoal(s, s', x);
    }
  }

  predicate LaunchStep(x: AcceptStep) {
    x.Register? || x.Launch?
  }

  lemma LaunchKeeps(s: State, x: AcceptStep)
    requires Protocol(s) && (s.slots <= 0 ==> Idle(s)) && AcceptEnabled(s, x) && LaunchStep(x)
    ensures AcceptGoal(s, DoAccept(s, x), x)
  {
    var s' := DoAccept(s, x);
    if x.Register? {
      assert AcceptGoal(s, s', x);
    } else {
      assert AcceptGoal(s, s', x);
    }
  }

  predicate UndoStep(x: AcceptStep) {
    x.LaunchThrows? || x.LaunchGivesBack? || x.StreamThrows? || x.UnwindGivesBack?
  }

  lemma UndoKeeps(s: State, x: AcceptStep)
    requires Protocol(s) && (s.slots <= 0 ==> Idle(s)) && AcceptEnabled(s, x) && UndoStep(x)
    ensures AcceptGoal(s, DoAccept(s, x), x)
  {
    var s' := DoAccept(s, x);
    if x.LaunchThrows? {
      assert AcceptGoal(s, s', x);
    } else if x.LaunchGivesBack? {
      assert AcceptGoal(s, s', x);
    } else if x.StreamThrows? {
      assert AcceptGoal(s, s', x);
    } else {
      assert AcceptGoal(s, s', x);
    }
  }

  predicate EndStep(x: AcceptStep) {
    x.MarkRunComplete? || x.CrashSetsFlags? || x.CrashClosesAll?
  }

  lemma EndKeeps(s: State, x: AcceptStep)
    requires Protocol(s) && (s.slots <= 0 ==> Idle(s)) && AcceptEnabled(s, x) && EndStep(x)
    ensures AcceptGoal(s, DoAccept(s, x), x)
  {
    var s' := DoAccept(s, x);
    if x.MarkRunComplete? {
      assert AcceptGoal(s, s', x);
    } else if x.CrashSetsFlags? {
      assert AcceptGoal(s, s', x);
    } else {
      assert AcceptGoal(s, s', x);
    }
  }

  lemma AcceptKeeps(s: State, x: AcceptStep)
    requires Protocol(s) && (s.slots <= 0 ==> Idle(s)) && AcceptEnabled(s, x)
    ensures AcceptGoal(s, DoAccept(s, x), x)
  {
    if StartStep(x) {
      StartKeeps(s, x);
    } else if WaitStep(x) {
      WaitKeeps(s, x);
    } else if SlotStep(x) {
      SlotKeeps(s, x);
    } else if LaunchStep(x) {
      LaunchKeeps(s, x);
    } else if UndoStep(x) {
      UndoKeeps(s, x);
    } else {
      EndKeeps(s, x);
    }
  }

  predicate SameSlots(s: State, s': State) {
    s'.slots == s.slots && s'.max == s.max && s'.conns == s.conns && s'.accept == s.accept
  }

  lemma ConnKeeps(s: State, id: Id, x: ConnStep)
    requires Protocol(s) && (s.slots <= 0 ==> Idle(s)) && ConnEnabled(s, id, x)
    ensures Protocol(DoConn(s, id, x)) && Follows(s, DoConn(s, id, x))
  {
    var s' := DoConn(s, id, x);
    assert x.ReleaseSlot? ==> ConnThread(id) in s'.owing;
    match x {
      case CloseSocket => assert Protocol(s') && Follows(s, s');
      case RemoveEntry => assert Protocol(s') && Follows(s, s');
      case ReleaseSlot => assert Protocol(s') && Follows(s, s');
    }
  }

  lemma DrainKeeps(s: State, x: DrainStep)
    requires Protocol(s) && (s.slots <= 0 ==> Idle(s)) && DrainEnabled(s, x)
    ensures Protocol(DoDrain(s, x)) && Follows(s, DoDrain(s, x)) && SameSlots(s, DoDrain(s, x))
  {
    var s' := DoDrain(s, x);
    match x {
      case DrainStarts => assert Protocol(s') && SameSlots(s, s') && Follows(s, s');
      case DrainExpires => assert Protocol(s') && SameSlots(s, s') && Follows(s, s');
      case CancelArrives => assert Protocol(s') && SameSlots(s, s') && Follows(s, s');
      case DrainChecks => assert Protocol(s') && SameSlots(s, s') && Follows(s, s');
      case DrainSetsFlags => assert Protocol(s') && SameSlots(s, s') && Follows(s, s');
      case DrainClosesAll => assert Protocol(s') && SameSlots(s, s') && Follows(s, s');
      case DrainForced => assert Protocol(s') && SameSlots(s, s') && Follows(s, s');
      case CompleteDrainTimer => assert Protocol(s') && SameSlots(s, s') && Follows(s, s');
    }
  }

  lemma ForcingAfter(callers: map<Caller, CallerPc>, k: Caller, pc: CallerPc)
    ensures SomeForcing(callers) && !At(callers, k, ForceClosingAll) ==> SomeForcing(callers[k := pc])
    ensures pc.ForceClosingAll? ==> SomeForcing(callers[k := pc])
  {
    var callers' := callers[k := pc];
    if pc.ForceClosingAll? {
      assert At(callers', k, ForceClosingAll);
    } else if SomeForcing(callers) && !At(callers, k, ForceClosingAll) {
      var j :| At(callers, j, ForceClosingAll);
      assert At(callers', j, ForceClosingAll);
    }
  }

  lemma ComesTooLate(s: State, k: Caller)
    requires Protocol(s) && (s.slots <= 0 ==> Idle(s)) && CallEnabled(s, k, GracefulSets) && s.stopping
    ensures var s' := DoCall(s, k, GracefulSets); Protocol(s') && SameSlots(s, s') && Follows(s, s')
  {
    var s' := DoCall(s, k, GracefulSets);
    ForcingAfter(s.callers, k, s'.callers[k]);
    assert s'.owing == s.owing || CallerThread(k) in s'.owing;
    assert Protocol(s') && SameSlots(s, s') && Follows(s, s');
  }

  lemma ArmsTimer(s: State, k: Caller)
    requires Protocol(s) && (s.slots <= 0 ==> Idle(s)) && CallEnabled(s, k, GracefulSets) && !s.stopping && s.slots > 0
    ensures var s' := DoCall(s, k, GracefulSets); Protocol(s') && SameSlots(s, s') && Follows(s, s')
  {
    var s' := DoCall(s, k, GracefulSets);
    ForcingAfter(s.callers, k, s'.callers[k]);
    assert s'.owing == s.owing || CallerThread(k) in s'.owing;
    assert Protocol(s') && SameSlots(s, s') && Follows(s, s');
  }

  lemma OwesCheck(s: State, k: Caller)
    requires Protocol(s) && (s.slots <= 0 ==> Idle(s)) && CallEnabled(s, k, GracefulSets) && !s.stopping && s.slots <= 0
    ensures var s' := DoCall(s, k, GracefulSets); Protocol(s') && SameSlots(s, s') && Follows(s, s')
  {
    var s' := DoCall(s, k, GracefulSets);
    ForcingAfter(s.callers, k, s'.callers[k]);
    assert s'.owing == s.owing || CallerThread(k) in s'.owing;
    assert Protocol(s') && SameSlots(s, s') && Follows(s, s');
  }

  lemma GracefulSetsKeeps(s: State, k: Caller)
    requires Protocol(s) && (s.slots <= 0 ==> Idle(s)) && CallEnabled(s, k, GracefulSets)
    ensures var s' := DoCall(s, k, GracefulSets); Protocol(s') && SameSlots(s, s') && Follows(s, s')
  {
    hide Protocol, SameSlots, Follows, DoCall, CallEnabled;
    if s.stopping {
      ComesTooLate(s, k);
    } else if s.slots > 0 {
      ArmsTimer(s, k);
    } else {
      OwesCheck(s, k);
    }
  }

  lemma GracefulKeeps(s: State, k: Caller, x: CallStep)
    requires Protocol(s) && CallEnabled(s, k, x) && (x.CallGraceful? || x.GracefulChecks? || x.GracefulSpawns?)
    ensures Protocol(DoCall(s, k, x)) && Follows(s, DoCall(s, k, x)) && SameSlots(s, DoCall(s, k, x))
  {
    var s' := DoCall(s, k, x);
    ForcingAfter(s.callers, k, s'.callers[k]);
    match x {
      case CallGraceful => assert Protocol(s') && SameSlots(s, s') && Follows(s, s');
      case GracefulChecks => assert Protocol(s') && SameSlots(s, s') && Follows(s, s');
      case GracefulSpawns => assert Protocol(s') && SameSlots(s, s') && Follows(s, s');
    }
  }

  lemma ForceKeeps(s: State, k: Caller, x: CallStep)
    requires Protocol(s) && CallEnabled(s, k, x) && (x.CallForce? || x.ForceSets? || x.ForceClosesAll?)
    ensures Protocol(DoCall(s, k, x)) && Follows(s, DoCall(s, k, x)) && SameSlots(s, DoCall(s, k, x))
  {
    var s' := DoCall(s, k, x);
    ForcingAfter(s.callers, k, s'.callers[k]);
    match x {
      case CallForce => assert Protocol(s') && SameSlots(s, s') && Follows(s, s');
      case ForceSets => assert Protocol(s') && SameSlots(s, s') && Follows(s, s');
      case ForceClosesAll =>
        assert CallerThread(k) in s'.owing;
        assert Protocol(s') && SameSlots(s, s') && Follows(s, s');
    }
  }

  lemma CallKeeps(s: State, k: Caller, x: CallStep)
    requires Protocol(s) && (s.slots <= 0 ==> Idle(s)) && CallEnabled(s, k, x)
    ensures Protocol(DoCall(s, k, x)) && Follows(s, DoCall(s, k, x)) && SameSlots(s, DoCall(s, k, x))
  {
    hide Protocol, Follows, DoCall, SameSlots, CallEnabled;
    if x.GracefulSets? {
      GracefulSetsKeeps(s, k);
    } else if x.CallForce? || x.ForceSets? || x.ForceClosesAll? {
      ForceKeeps(s, k, x);
    } else {
      GracefulKeeps(s, k, x);
    }
  }

  lemma FinishKeeps(s: State, t: Thread, x: FinishStep)
    requires Protocol(s) && (s.slots <= 0 ==> Idle(s)) && (if x.FinishCheck? then t in s.owing else t in s.stoppers)
    ensures Protocol(DoFinish(s, t, x)) && Follows(s, DoFinish(s, t, x)) && SameSlots(s, DoFinish(s, t, x))
  {
    var s' := DoFinish(s, t, x);
    match x {
      case FinishCheck => assert Protocol(s') && SameSlots(s, s') && Follows(s, s');
      case StopExecutor => assert Protocol(s') && SameSlots(s, s') && Follows(s, s');
    }
  }

  // One handler's progress changes the set of holders by at most its own id.
  lemma HoldersAfter(conns: map<Id, ConnPc>, id: Id, pc: ConnPc)
    ensures Holders(conns[id := pc]) == if HoldsSlot(pc) then Holders(conns) + {id} else Holders(conns) - {id}
  {
  }

  lemma ConnCounted(slots: int, max: nat, conns: map<Id, ConnPc>, a: AcceptPc, id: Id, pc: ConnPc)
    requires Counted(slots, max, conns, a) && id in conns && HoldsSlot(conns[id])
    ensures Counted(if HoldsSlot(pc) then slots else slots - 1, max, conns[id := pc], a)
  {
    HoldersAfter(conns, id, pc);
    assert id in Holders(conns) && Holders(conns) + {id} == Holders(conns);
  }

  lemma AcceptCounted(s: State, x: AcceptStep, s': State)
    requires Counted(s.slots, s.max, s.conns, s.accept) && Ids(s.conns, s.nextId, s.accept, s.registry, s.closing) &&
             AcceptGoal(s, s', x)
    ensures Counted(s'.slots, s'.max, s'.conns, s'.accept)
  {
    if x.Launch? {
      HoldersAfter(s.conns, s.accept.id, Running);
      assert s.accept.id !in Holders(s.conns);
    }
  }

  lemma SameInv(s: State, s': State)
    requires Inv(s) && SameSlots(s, s') && Protocol(s')
    ensures Inv(s')
  {
  }

  lemma AcceptInv(s: State, x: AcceptStep)
    requires Inv(s) && (s.slots <= 0 ==> Idle(s)) && AcceptEnabled(s, x)
    ensures Inv(DoAccept(s, x)) && Follows(s, DoAccept(s, x))
  {
    AcceptKeeps(s, x);
    AcceptCounted(s, x, DoAccept(s, x));
  }

  lemma ConnInv(s: State, id: Id, x: ConnStep)
    requires Inv(s) && (s.slots <= 0 ==> Idle(s)) && ConnEnabled(s, id, x)
    ensures Inv(DoConn(s, id, x)) && Follows(s, DoConn(s, id, x))
  {
    ConnKeeps(s, id, x);
    ConnCounted(s.slots, s.max, s.conns, s.accept, id, DoConn(s, id, x).conns[id]);
  }

  // Every step keeps the invariant.
  lemma InvKept(s: State, a: Action)
    requires Inv(s) && Enabled(s, a)
    ensures Inv(Do(s, a)) && Follows(s, Do(s, a))
  {
    if s.slots <= 0 {
      CountedZero(s);
    }
    match a {
      case Accept(x) => AcceptInv(s, x);
      case Conn(id, x) => ConnInv(s, id, x);
      case Drain(x) =>
        DrainKeeps(s, x);
        SameInv(s, DoDrain(s, x));
      case Call(k, x) =>
        CallKeeps(s, k, x);
        SameInv(s, DoCall(s, k, x));
      case Finish(t, x) =>
        FinishKeeps(s, t, x);
        SameInv(s, DoFinish(s, t, x));
    }
  }

  // Runs: sequences of enabled steps.
  ghost predicate Run(s: State, acts: seq<Action>, s': State)
    decreases |acts|
  {
    if acts == [] then s' == s else Enabled(s, acts[0]) && Run(Do(s, acts[0]), acts[1..], s')
  }

  ghost predicate Reached(max: nat, acts: seq<Action>, s: State) {
    Run(Init(max), acts, s)
  }

  lemma {:induction false} RunKeeps(s: State, acts: seq<Action>, s': State)
    requires Inv(s) && Run(s, acts, s')
    ensures Inv(s') && Follows(s, s')
    decreases |acts|
  {
    if acts != [] {
      var s1 := Do(s, acts[0]);
      InvKept(s, acts[0]);
      RunKeeps(s1, acts[1..], s');
      FollowsOn(s, s1, s');
    } else {
      FollowsSelf(s);
    }
  }

  lemma FollowsSelf(s: State)
    ensures Follows(s, s)
  {
  }

  lemma FollowsOn(s: State, s1: State, s2: State)
    requires Follows(s, s1) && Follows(s1, s2) && Inv(s1)
    ensures Follows(s, s2)
  {
    if Drained(s) && Idle(s) {
      CountedZero(s1);
    }
  }

  lemma ReachedInv(max: nat, acts: seq<Action>, s: State)
    requires Reached(max, acts, s)
    ensures Inv(s)
  {
    InitInv(max);
    RunKeeps(Init(max), acts, s);
  }

  // The counter is always the number of slots in use; it never leaves [0, MaxConnections].
  lemma SlotsExact(max: nat, acts: seq<Action>, s: State)
    requires Reached(max, acts, s)
    ensures 0 <= s.slots <= s.max == max
    ensures s.slots == |Holders(s.conns)| + Held(s.accept)
  {
    InitInv(max);
    RunKeeps(Init(max), acts, s);
  }

  // The executor is asked to stop only when the server is drained and no drain timer is outstanding.
  lemma StopOnlyWhenDrained(max: nat, acts: seq<Action>, s: State, t: Thread)
    requires Reached(max, acts, s) && Enabled(s, Finish(t, StopExecutor))
    ensures Drained(s) && Idle(s) && !DrainOutstanding(s.drain)
  {
    ReachedInv(max, acts, s);
    CountedZero(s);
  }

  // And from then on no slot is taken and no connection launched.
  lemma DrainedForGood(max: nat, acts: seq<Action>, s: State, more: seq<Action>, s': State)
    requires Reached(max, acts, s) && s.stopRequested && Run(s, more, s')
    ensures Drained(s') && Idle(s') && !DrainOutstanding(s'.drain) && s'.conns == s.conns
  {
    ReachedInv(max, acts, s);
    CountedZero(s);
    RunKeeps(s, more, s');
    CountedZero(s');
  }

  // No lost stop: a drained server without an outstanding drain timer has been stopped,
  // or some thread is about to stop it, or still owes the check that will.
  lemma StopNotLost(max: nat, acts: seq<Action>, s: State)
    requires Reached(max, acts, s) && Drained(s) && !DrainOutstanding(s.drain)
    ensures s.stopRequested || Any(s.stoppers) || Owed(s)
  {
    ReachedInv(max, acts, s);
  }

  lemma CheckThenStop(s: State, t: Thread) returns (more: seq<Action>, s': State)
    requires Drained(s) && !s.timerActive && Busy(s, t)
    ensures |more| <= 2 && Run(s, more, s') && s'.stopRequested && OwnSteps(more)
  {
    var b := Finish(t, StopExecutor);
    var s1, before := s, [];
    if t !in s.stoppers {
      s1, before := Do(s, Finish(t, FinishCheck)), [Finish(t, FinishCheck)];
    }
    assert Run(s1, [], s1) && before[|before|..] == [];
    Extend(s, before, s1, b);
    more, s' := before + [b], Do(s1, b);
  }

  // Steps that threads of the server and callers of ForceStop take with no event from outside.
  predicate OwnSteps(acts: seq<Action>) {
    forall i :: 0 <= i < |acts| ==> IsCloseAll(acts[i]) || acts[i].Finish?
  }

  // What NoLostStop leaves to be done.
  lemma DrainedIsOwed(s: State)
    requires Inv(s) && Drained(s) && !DrainOutstanding(s.drain)
    ensures !s.timerActive && (s.stopRequested || Any(s.stoppers) || Owed(s))
  {
  }

  lemma DrainedStopsFrom(s: State) returns (more: seq<Action>, s': State)
    requires Inv(s) && Drained(s) && !DrainOutstanding(s.drain)
    ensures |more| <= 3 && Run(s, more, s') && s'.stopRequested && OwnSteps(more)
  {
    DrainedIsOwed(s);
    if s.stopRequested {
      return [], s;
    }
    hide Inv, Drained, Do, Enabled, Run;
    if Any(s.owing) || Any(s.stoppers) {
      var t :| t in s.owing || t in s.stoppers;
      more, s' := CheckThenStop(s, t);
      return;
    }
    var a, t := LastSweep(s);
    more, s' := CheckThenStop(Do(s, a), t);
    OneStep(s, a);
    Chain(s, [a], Do(s, a), more, s');
    more := [a] + more;
  }

  // The flags are set, and the thread that set them has to sweep before it checks.
  lemma LastSweep(s: State) returns (a: Action, t: Thread)
    requires Drained(s) && !s.timerActive && (s.accept.CrashClosing? || SomeForcing(s.callers))
    ensures Enabled(s, a) && IsCloseAll(a)
    ensures Drained(Do(s, a)) && !Do(s, a).timerActive && Busy(Do(s, a), t)
  {
    hide DoConn, DoDrain, DoFinish;
    if s.accept.CrashClosing? {
      a, t := Accept(CrashClosesAll), AcceptThread;
    } else {
      var k :| At(s.callers, k, ForceClosingAll);
      a, t := Call(k, ForceClosesAll), CallerThread(k);
    }
  }

  // So from every such state the stop is at most three steps away, and all of them are steps that
  // some thread takes without waiting for anything.
  lemma DrainedStops(max: nat, acts: seq<Action>, s: State) returns (more: seq<Action>, s': State)
    requires Reached(max, acts, s) && Drained(s) && !DrainOutstanding(s.drain)
    ensures |more| <= 3 && Run(s, more, s') && s'.stopRequested && OwnSteps(more)
  {
    ReachedInv(max, acts, s);
    more, s' := DrainedStopsFrom(s);
  }

  // ---------- the way from a stop request to the stop ----------

  // A step that needs nothing new from outside: no call, no new connection and no failure.
  predicate QuietAccept(x: AcceptStep) {
    && !(x.StartFails? || x.OptionFails? || x.LaunchThrows? || x.StreamThrows?)
    && x != AcceptReturns(true) && x != CompareExchange(true)
  }

  predicate Quiet(a: Action) {
    match a
    case Accept(x) => QuietAccept(x)
    case Call(_, x) => !(x.CallGraceful? || x.CallForce?)
    case _ => true
  }

  predicate AllQuiet(acts: seq<Action>) {
    forall i :: 0 <= i < |acts| ==> Quiet(acts[i])
  }

  // How many steps the accept coroutine is from its end, once the server is stopping.
  function AcceptLeft(a: AcceptPc, slots: int, max: nat): nat {
    match a
    case Finished => 0
    case CrashClosing | Leaving => 1
    case Crashing | Returning | GotError | GotSocket | Published => 2
    case Starting | Accepting | Unwinding | Holding => 3
    case Spawned | RetryWait | Registered(_) | LaunchFailed => 4
    case Cleared => 5
    case Loaded(seen) => if seen >= max || seen == slots then 4 else 5
    case Checked => 6
  }

  function DrainLeft(d: DrainPc): nat {
    match d
    case NoDrain | DrainDone => 0
    case Completing => 1
    case ForceFinishing => 2
    case ForceClosing => 3
    case Forcing => 4
    case Expired => 5
    case Sleeping => 6
    case Ready => 7
    case Unspawned(_) => 8
  }

  function Work(s: State): nat {
    2 * |s.owing| + |s.stoppers|
  }

  predicate Shorter(s: State, s': State) {
    AcceptLeft(s'.accept, s'.slots, s'.max) < AcceptLeft(s.accept, s.slots, s.max)
  }

  // Nearer to the stop: first the accept coroutine ends, then the drain timer, then the handlers.
  predicate Nearer(s: State, s': State) {
    var a, a' := AcceptLeft(s.accept, s.slots, s.max), AcceptLeft(s'.accept, s'.slots, s'.max);
    var d, d', h, h' := DrainLeft(s.drain), DrainLeft(s'.drain), |Holders(s.conns)|, |Holders(s'.conns)|;
    a' < a || (a' == a && (d' < d || (d' == d && (h' < h || (h' == h && Work(s') < Work(s))))))
  }

  function NextAccept(a: AcceptPc): AcceptStep
    requires !a.Finished?
  {
    match a
    case Spawned => RunBegins
    case Starting => PublishStart
    case Published => CheckStartup
    case Accepting => AcceptReturns(false)
    case GotError => CheckAfterError(false)
    case RetryWait => RetryElapses
    case GotSocket => CheckAfterAccept
    case Checked => LoadSlots
    case Loaded(_) => CompareExchange(false)
    case Holding => CheckAfterAcquire
    case Returning => GiveBack
    case Cleared => Register
    case Registered(_) => Launch
    case LaunchFailed => LaunchGivesBack
    case Unwinding => UnwindGivesBack
    case Leaving => MarkRunComplete
    case Crashing => CrashSetsFlags
    case CrashClosing => CrashClosesAll
  }

  lemma StartShortens(s: State, x: AcceptStep)
    requires s.stopping && AcceptEnabled(s, x) && StartStep(x) && QuietAccept(x)
    ensures Shorter(s, DoAccept(s, x))
  {
    if x.RunBegins? {
      assert Shorter(s, DoAccept(s, x));
    } else if x.PublishStart? {
      assert Shorter(s, DoAccept(s, x));
    } else {
      assert Shorter(s, DoAccept(s, x));
    }
  }

  lemma WaitShortens(s: State, x: AcceptStep)
    requires s.stopping && AcceptEnabled(s, x) && WaitStep(x) && QuietAccept(x)
    ensures Shorter(s, DoAccept(s, x))
  {
    if x.AcceptReturns? {
      assert Shorter(s, DoAccept(s, x));
    } else if x.CheckAfterError? {
      assert Shorter(s, DoAccept(s, x));
    } else if x.RetryElapses? {
      assert Shorter(s, DoAccept(s, x));
    } else {
      assert Shorter(s, DoAccept(s, x));
    }
  }

  lemma SlotShortens(s: State, x: AcceptStep)
    requires s.stopping && AcceptEnabled(s, x) && SlotStep(x) && QuietAccept(x)
    ensures Shorter(s, DoAccept(s, x))
  {
    if x.LoadSlots? {
      assert Shorter(s, DoAccept(s, x));
    } else if x.CompareExchange? {
      assert Shorter(s, DoAccept(s, x));
    } else if x.CheckAfterAcquire? {
      assert Shorter(s, DoAccept(s, x));
    } else {
      assert Shorter(s, DoAccept(s, x));
    }
  }

  lemma LaunchShortens(s: State, x: AcceptStep)
    requires s.stopping && AcceptEnabled(s, x) && LaunchStep(x) && QuietAccept(x)
    ensures Shorter(s, DoAccept(s, x))
  {
    if x.Register? {
      assert Shorter(s, DoAccept(s, x));
    } else {
      assert Shorter(s, DoAccept(s, x));
    }
  }

  lemma UndoShortens(s: State, x: AcceptStep)
    requires s.stopping && AcceptEnabled(s, x) && UndoStep(x) && QuietAccept(x)
    ensures Shorter(s, DoAccept(s, x))
  {
    if x.LaunchGivesBack? {
      assert Shorter(s, DoAccept(s, x));
    } else {
      assert Shorter(s, DoAccept(s, x));
    }
  }

  lemma EndShortens(s: State, x: AcceptStep)
    requires s.stopping && AcceptEnabled(s, x) && EndStep(x) && QuietAccept(x)
    ensures Shorter(s, DoAccept(s, x))
  {
    if x.MarkRunComplete? {
      assert Shorter(s, DoAccept(s, x));
    } else if x.CrashSetsFlags? {
      assert Shorter(s, DoAccept(s, x));
    } else {
      assert Shorter(s, DoAccept(s, x));
    }
  }

  // Whatever the accept coroutine does quietly while the server is stopping brings it nearer to its end.
  lemma AcceptShortens(s: State, x: AcceptStep)
    requires s.stopping && AcceptEnabled(s, x) && QuietAccept(x)
    ensures Shorter(s, DoAccept(s, x))
  {
    hide AcceptEnabled, DoAccept, Shorter;
    if StartStep(x) {
      StartShortens(s, x);
    } else if WaitStep(x) {
      WaitShortens(s, x);
    } else if SlotStep(x) {
      SlotShortens(s, x);
    } else if LaunchStep(x) {
      LaunchShortens(s, x);
    } else if UndoStep(x) {
      UndoShortens(s, x);
    } else {
      EndShortens(s, x);
    }
  }

  lemma NextAcceptEnabled(s: State)
    requires !s.accept.Finished? && !DrainOnStrand(s.drain)
    ensures AcceptEnabled(s, NextAccept(s.accept)) && QuietAccept(NextAccept(s.accept))
  {
  }

  lemma AcceptNears(s: State, a: Action)
    requires s.stopping && !s.accept.Finished? && !DrainOnStrand(s.drain) && a == Accept(NextAccept(s.accept))
    ensures Enabled(s, a) && Quiet(a) && Nearer(s, Do(s, a))
  {
    hide AcceptLeft, DoAccept, DoConn, DoDrain, DoCall, DoFinish, NextAccept, AcceptEnabled, Holders, DrainLeft;
    NextAcceptEnabled(s);
    AcceptShortens(s, a.a);
    NearerAtFirst(s, Do(s, a));
  }

  lemma NearerAtFirst(s: State, s': State)
    requires Shorter(s, s')
    ensures Nearer(s, s')
  {
  }

  // The next step of the drain timer's coroutine; the deadline fires.
  function NextDrain(d: DrainPc): DrainStep
    requires DrainOutstanding(d) && !d.Unspawned?
  {
    match d
    case Ready => DrainStarts
    case Sleeping => DrainExpires
    case Expired => DrainChecks
    case Forcing => DrainSetsFlags
    case ForceClosing => DrainClosesAll
    case ForceFinishing => DrainForced
    case Completing => CompleteDrainTimer
  }

  lemma DrainShortens(s: State, x: DrainStep)
    requires DrainEnabled(s, x) && (x.CancelArrives? ==> s.drain.Sleeping?)
    ensures SameSlots(s, DoDrain(s, x)) && DrainLeft(DoDrain(s, x).drain) < DrainLeft(s.drain)
  {
    var s' := DoDrain(s, x);
    match x {
      case DrainStarts => assert SameSlots(s, s') && DrainLeft(s'.drain) < DrainLeft(s.drain);
      case DrainExpires => assert SameSlots(s, s') && DrainLeft(s'.drain) < DrainLeft(s.drain);
      case CancelArrives => assert SameSlots(s, s') && DrainLeft(s'.drain) < DrainLeft(s.drain);
      case DrainChecks => assert SameSlots(s, s') && DrainLeft(s'.drain) < DrainLeft(s.drain);
      case DrainSetsFlags => assert SameSlots(s, s') && DrainLeft(s'.drain) < DrainLeft(s.drain);
      case DrainClosesAll => assert SameSlots(s, s') && DrainLeft(s'.drain) < DrainLeft(s.drain);
      case DrainForced => assert SameSlots(s, s') && DrainLeft(s'.drain) < DrainLeft(s.drain);
      case CompleteDrainTimer => assert SameSlots(s, s') && DrainLeft(s'.drain) < DrainLeft(s.drain);
    }
  }

  lemma NearerThen(s: State, s': State)
    requires SameSlots(s, s') && DrainLeft(s'.drain) < DrainLeft(s.drain)
    ensures Nearer(s, s')
  {
  }

  lemma DrainNears(s: State, a: Action)
    requires DrainOutstanding(s.drain) && !s.drain.Unspawned? && a == Drain(NextDrain(s.drain))
    requires !AcceptOnStrand(s.accept) && (s.drain.ForceFinishing? ==> !Busy(s, DrainThread))
    ensures Enabled(s, a) && Quiet(a) && Nearer(s, Do(s, a))
  {
    hide AcceptLeft, DoAccept, DoConn, DoDrain, DoCall, DoFinish, Holders, DrainLeft, Nearer;
    DrainShortens(s, a.d);
    NearerThen(s, Do(s, a));
  }

  // The coroutine of an armed timer is spawned by the call that armed it.
  lemma SpawnNears(s: State, a: Action)
    requires s.drain.Unspawned? && OneArmer(s.callers, s.drain) && a == Call(s.drain.armer, GracefulSpawns)
    ensures Enabled(s, a) && Quiet(a) && Nearer(s, Do(s, a))
  {
    hide AcceptLeft, DoAccept, DoConn, DoDrain, DoFinish, Holders, Nearer;
    NearerThen(s, Do(s, a));
  }

  // A thread that is held up by its own MaybeFinishGracefulStop goes through with it.
  lemma FinishNears(s: State, t: Thread, a: Action)
    requires Busy(s, t) && a == Finish(t, if t in s.owing then FinishCheck else StopExecutor)
    ensures Enabled(s, a) && Quiet(a) && (Do(s, a).stopRequested || Nearer(s, Do(s, a)))
  {
    hide AcceptLeft, DoAccept, DoConn, DoDrain, DoCall, DoFinish, Holders, DrainLeft, Work, Nearer;
    FinishWorks(s, t);
  }

  lemma FinishWorks(s: State, t: Thread)
    requires Busy(s, t)
    ensures t in s.owing ==> Nearer(s, DoFinish(s, t, FinishCheck))
    ensures DoFinish(s, t, StopExecutor).stopRequested
  {
    hide AcceptLeft, Holders, DrainLeft;
    if t in s.owing {
      var s' := DoFinish(s, t, FinishCheck);
      assert |s'.owing| == |s.owing| - 1;
      assert |s'.stoppers| <= |s.stoppers| + 1;
    }
  }

  function NextConn(c: ConnPc): ConnStep
    requires HoldsSlot(c)
  {
    match c
    case Running => CloseSocket
    case SocketClosed => RemoveEntry
    case Removed => ReleaseSlot
  }

  lemma HandlerNears(s: State, id: Id, x: ConnStep)
    requires ConnEnabled(s, id, x)
    ensures HandlerMoves(s, DoConn(s, id, x), id)
  {
    var s' := DoConn(s, id, x);
    match x {
      case CloseSocket => assert HandlerMoves(s, s', id);
      case RemoveEntry => assert HandlerMoves(s, s', id);
      case ReleaseSlot => assert HandlerMoves(s, s', id);
    }
  }

  // One handler goes one step, and neither coroutine moves.
  predicate HandlerMoves(s: State, s': State, id: Id) {
    && s'.accept == s.accept && s'.drain == s.drain && id in s.conns && id in s'.conns
    && s'.conns == s.conns[id := s'.conns[id]] && HandlerLeft(s'.conns[id]) == HandlerLeft(s.conns[id]) - 1
  }

  // A handler closes its socket, leaves the registry and gives its slot back.
  lemma {:induction false} HandlerEnds(s: State, id: Id) returns (acts: seq<Action>, s': State)
    requires id in s.conns && HoldsSlot(s.conns[id])
    ensures Run(s, acts, s') && AllQuiet(acts) && s'.accept == s.accept && s'.drain == s.drain
    ensures Holders(s'.conns) == Holders(s.conns) - {id}
    decreases HandlerLeft(s.conns[id])
  {
    hide Holders, AllQuiet, Run, DoConn, DoAccept, DoDrain, DoCall, DoFinish;
    var a := Conn(id, NextConn(s.conns[id]));
    HandlerNears(s, id, a.c);
    var s1 := Do(s, a);
    HoldersAfter(s.conns, id, s1.conns[id]);
    OneStep(s, a);
    if s.conns[id].Removed? {
      return [a], s1;
    }
    var rest;
    rest, s' := HandlerEnds(s1, id);
    QuietBoth([a], rest);
    Chain(s, [a], s1, rest, s');
    acts := [a] + rest;
  }

  function HandlerLeft(c: ConnPc): nat {
    match c
    case Running => 3
    case SocketClosed => 2
    case Removed => 1
    case Released => 0
  }

  lemma QuietBoth(acts: seq<Action>, more: seq<Action>)
    requires AllQuiet(acts) && AllQuiet(more)
    ensures AllQuiet(acts + more)
  {
  }

  // The accept coroutine and the drain timer are done and no handler is left.
  predicate Settled(s: State) {
    s.accept.Finished? && !DrainOutstanding(s.drain) && Holders(s.conns) == {}
  }

  lemma OneStep(s: State, a: Action)
    requires Enabled(s, a)
    ensures Run(s, [a], Do(s, a)) && (Quiet(a) ==> AllQuiet([a]))
  {
    assert [a][1..] == [] && Run(Do(s, a), [], Do(s, a));
  }

  lemma OneNearer(s: State) returns (acts: seq<Action>, s': State)
    requires Inv(s) && s.stopping && !Settled(s)
    ensures Run(s, acts, s') && AllQuiet(acts) && (s'.stopRequested || Nearer(s, s'))
  {
    hide Do, Enabled, Quiet, AllQuiet, Run, Nearer, NextDrain, NextAccept;
    var a;
    if s.drain.ForceFinishing? && Busy(s, DrainThread) {
      a := Finish(DrainThread, if DrainThread in s.owing then FinishCheck else StopExecutor);
      FinishNears(s, DrainThread, a);
    } else if DrainOnStrand(s.drain) || (s.accept.Finished? && DrainOutstanding(s.drain) && !s.drain.Unspawned?) {
      a := Drain(NextDrain(s.drain));
      DrainNears(s, a);
    } else if !s.accept.Finished? {
      a := Accept(NextAccept(s.accept));
      AcceptNears(s, a);
    } else if s.drain.Unspawned? {
      a := Call(s.drain.armer, GracefulSpawns);
      SpawnNears(s, a);
    } else {
      var id :| id in Holders(s.conns);
      acts, s' := HandlerEnds(s, id);
      HandlerNearer(s, s', id);
      return;
    }
    OneStep(s, a);
    acts, s' := [a], Do(s, a);
  }

  lemma HandlerNearer(s: State, s': State, id: Id)
    requires s.accept.Finished? && s'.accept == s.accept && s'.drain == s.drain
    requires id in Holders(s.conns) && Holders(s'.conns) == Holders(s.conns) - {id}
    ensures Nearer(s, s')
  {
  }

  lemma {:induction false} Chain(s: State, acts: seq<Action>, s1: State, more: seq<Action>, s2: State)
    requires Run(s, acts, s1) && Run(s1, more, s2)
    ensures Run(s, acts + more, s2)
    decreases |acts|
  {
    if acts == [] {
      assert acts + more == more;
    } else {
      Chain(Do(s, acts[0]), acts[1..], s1, more, s2);
      assert (acts + more)[1..] == acts[1..] + more;
    }
  }

  lemma {:induction false} StoppingStopsFrom(s: State) returns (more: seq<Action>, s': State)
    requires Inv(s) && s.stopping
    ensures Run(s, more, s') && AllQuiet(more) && s'.stopRequested
    decreases AcceptLeft(s.accept, s.slots, s.max), DrainLeft(s.drain), |Holders(s.conns)|, Work(s)
  {
    if s.stopRequested {
      return [], s;
    }
    if Settled(s) {
      more, s' := DrainedStopsFrom(s);
      return;
    }
    var acts, s1 := OneNearer(s);
    if s1.stopRequested {
      return acts, s1;
    }
    RunKeeps(s, acts, s1);
    var rest;
    rest, s' := StoppingStopsFrom(s1);
    Chain(s, acts, s1, rest, s');
    QuietBoth(acts, rest);
    more := acts + rest;
  }

  // A stop that was asked for can always be completed: from every reachable state in which the
  // server is stopping, some run without a new call, a new connection or a failure ends with the
  // call of Executor::Stop.
  lemma StoppingStops(max: nat, acts: seq<Action>, s: State) returns (more: seq<Action>, s': State)
    requires Reached(max, acts, s) && s.stopping
    ensures Run(s, more, s') && AllQuiet(more) && s'.stopRequested
  {
    ReachedInv(max, acts, s);
    more, s' := StoppingStopsFrom(s);
  }

  // If BeginGracefulStop armed no timer, no connection is launched afterwards.
  lemma NoTimerNoLaunch(max: nat, acts: seq<Action>, s: State, more: seq<Action>, s': State)
    requires Reached(max, acts, s) && s.noTimer && Run(s, more, s')
    ensures s'.conns.Keys == s.conns.Keys
  {
    ReachedInv(max, acts, s);
    RunKeeps(s, more, s');
  }

  // Every open connection has been told to close.
  ghost predicate AllTold(s: State) {
    forall id | Open(s.conns, s.accept, id) :: id in s.closing
  }

  predicate IsCloseAll(a: Action) {
    a == Drain(DrainClosesAll) || a == Accept(CrashClosesAll) || (a.Call? && a.o.ForceClosesAll?)
  }

  // Until some CloseAll runs, the registry holds exactly the open connections.
  lemma RegistryExact(max: nat, acts: seq<Action>, s: State)
    requires Reached(max, acts, s) && !s.swept
    ensures forall id :: id in s.registry <==> Open(s.conns, s.accept, id)
  {
    ReachedInv(max, acts, s);
  }

  // A CloseAll reaches every connection there is or ever will be exactly when the accept
  // coroutine does not hold a connection that passed the last check and is not yet registered.
  lemma SweepComplete(max: nat, acts: seq<Action>, s: State, a: Action)
    requires Reached(max, acts, s) && Enabled(s, a) && IsCloseAll(a)
    ensures !s.accept.Cleared? <==> forall more, s' | Run(Do(s, a), more, s') :: AllTold(s')
  {
    ReachedInv(max, acts, s);
    var s1 := Do(s, a);
    InvKept(s, a);
    if s.accept.Cleared? {
      SweepMisses(s1);
    } else {
      forall more, s' | Run(s1, more, s') ensures AllTold(s') {
        RunKeeps(s1, more, s');
      }
    }
  }

  // That connection is registered and launched after the sweep, and nobody tells it to close.
  lemma SweepMisses(s: State)
    requires Inv(s) && s.accept.Cleared?
    ensures exists more, s' :: Run(s, more, s') && !AllTold(s')
  {
    var a, b := Accept(Register), Accept(Launch);
    var s1 := Do(s, a);
    var s2 := Do(s1, b);
    assert [a, b][1..] == [b] && [b][1..] == [];
    assert Run(s2, [], s2);
    assert Run(s1, [b], s2);
    assert Run(s, [a, b], s2);
    assert Open(s2.conns, s2.accept, s.nextId) && s.nextId !in s2.closing;
  }

  // The deadline of BeginGracefulStop reaches every connection, whatever follows: its coroutine
  // shares the strand with the accept coroutine.
  lemma DeadlineReachesAll(max: nat, acts: seq<Action>, s: State, more: seq<Action>, s': State)
    requires Reached(max, acts, s) && Enabled(s, Drain(DrainClosesAll))
    requires Run(Do(s, Drain(DrainClosesAll)), more, s')
    ensures AllTold(s')
  {
    ReachedInv(max, acts, s);
    InvKept(s, Drain(DrainClosesAll));
    RunKeeps(Do(s, Drain(DrainClosesAll)), more, s');
  }

  lemma {:induction false} Extend(s0: State, acts: seq<Action>, s: State, a: Action)
    requires Run(s0, acts, s) && Enabled(s, a)
    ensures Run(s0, acts + [a], Do(s, a))
    decreases |acts|
  {
    if acts == [] {
      assert ([] + [a])[1..] == [] && Run(Do(s, a), [], Do(s, a));
    } else {
      Extend(Do(s0, acts[0]), acts[1..], s, a);
      assert (acts + [a])[1..] == acts[1..] + [a];
    }
  }

  lemma InitReached(max: nat) returns (acts: seq<Action>, s: State)
    ensures Reached(max, acts, s) && s == Init(max)
  {
    acts, s := [], Init(max);
  }

  lemma Then(max: nat, acts: seq<Action>, s: State, a: Action) returns (acts': seq<Action>, s': State)
    requires Reached(max, acts, s) && Enabled(s, a)
    ensures Reached(max, acts', s') && s' == Do(s, a)
  {
    Extend(Init(max), acts, s, a);
    acts', s' := acts + [a], Do(s, a);
  }

  lemma AcceptingState() returns (acts: seq<Action>, s: State)
    ensures Reached(1, acts, s) && s == Init(1).(startComplete := true, accept := Accepting)
  {
    hide Run;
    acts, s := InitReached(1);
    acts, s := Then(1, acts, s, Accept(RunBegins));
    acts, s := Then(1, acts, s, Accept(PublishStart));
    acts, s := Then(1, acts, s, Accept(CheckStartup));
  }

  lemma LoadedState() returns (acts: seq<Action>, s: State)
    ensures Reached(1, acts, s) && s == Init(1).(startComplete := true, accept := Loaded(0))
  {
    hide Run;
    acts, s := AcceptingState();
    acts, s := Then(1, acts, s, Accept(AcceptReturns(true)));
    acts, s := Then(1, acts, s, Accept(CheckAfterAccept));
    acts, s := Then(1, acts, s, Accept(LoadSlots));
  }

  lemma ClearedState() returns (acts: seq<Action>, s: State)
    ensures Reached(1, acts, s) && s == Init(1).(startComplete := true, slots := 1, accept := Cleared)
  {
    hide Run;
    acts, s := LoadedState();
    acts, s := Then(1, acts, s, Accept(CompareExchange(false)));
    acts, s := Then(1, acts, s, Accept(CheckAfterAcquire));
  }

  // An outside ForceStop can miss a connection: a run to a state in which its sweep will.
  lemma ForceStopCanMiss() returns (acts: seq<Action>, s: State)
    ensures Reached(1, acts, s) && s.accept.Cleared? && s.stopping && Enabled(s, Call(0, ForceClosesAll))
  {
    acts, s := ClearedState();
    acts, s := Then(1, acts, s, Call(0, CallForce));
    acts, s := Then(1, acts, s, Call(0, ForceSets));
  }
}
