// What a run of the server has done so far, read off its state, and what can still happen.
module ServerRuns {
  import opened Server

  // ---------- events that a state must tell ----------

  // The blocks that ask for a stop, and those that force it.
  predicate Stops(a: Action) {
    Forces(a) || (a.Call? && a.o.GracefulSets?)
  }

  predicate Forces(a: Action) {
    a == Drain(DrainSetsFlags) || a == Accept(CrashSetsFlags) || (a.Call? && a.o.ForceSets?)
  }

  predicate StopsExecutor(a: Action) {
    a.Finish? && a.f.StopExecutor?
  }

  // The only steps that end the accept loop of a server that nobody stops: the start fails, building
  // a stream throws, or the accept is aborted.
  predicate EndsLoop(a: Action) {
    a == Accept(StartFails) || a == Accept(StreamThrows) || a == Accept(CheckAfterError(true))
  }

  ghost predicate Happened(acts: seq<Action>, p: Action -> bool) {
    exists i :: 0 <= i < |acts| && p(acts[i])
  }

  lemma HappenedMore(acts: seq<Action>, a: Action, p: Action -> bool)
    ensures Happened(acts + [a], p) <==> Happened(acts, p) || p(a)
  {
    var more := acts + [a];
    if Happened(acts, p) {
      var i :| 0 <= i < |acts| && p(acts[i]);
      assert more[i] == acts[i];
    }
    assert more[|acts|] == a;
  }

  // The accept coroutine has left its loop or is about to.
  predicate Ending(a: AcceptPc) {
    a.Leaving? || a.Finished? || a.Crashing? || a.CrashClosing? || a.Returning? || a.Unwinding?
  }

  // ---------- what one step does to the flags ----------

  predicate FlagsMove(s: State, s': State, a: Action) {
    && (s'.stopping <==> s.stopping || Stops(a)) && (s'.force <==> s.force || Forces(a))
    && (s'.startComplete <==> s.startComplete || Forces(a) || (Stops(a) && !s.stopping) || a == Accept(PublishStart))
    && (s'.runComplete <==> s.runComplete || a == Accept(MarkRunComplete) || a == Accept(CrashSetsFlags))
    && (s'.stopRequested <==> s.stopRequested || StopsExecutor(a)) && (s'.swept <==> s.swept || IsCloseAll(a))
  }

  // Only the accept coroutine moves itself, and unless the server is stopping it leaves its loop
  // by the steps of EndsLoop only.
  predicate LoopMoves(s: State, s': State, a: Action) {
    if a.Accept? then
      && (!s'.stopping ==> (Ending(s'.accept) <==> Ending(s.accept) || EndsLoop(a)))
      && s'.drain == s.drain && s'.callers == s.callers && (s'.accept.CrashClosing? ==> s'.force)
      && (s'.closing == s.closing || s'.swept) && s'.timerActive == s.timerActive
      && (s'.cancelled <==> s.cancelled || (s.timerActive && Forces(a)))
    else
      && s'.accept == s.accept && (a.Conn? || a.Finish? ==> s'.drain == s.drain)
      && (a.Call? && s.stopping ==> s'.drain == s.drain || s'.drain.Ready?)
  }

  predicate StepMoves(s: State, s': State, a: Action) {
    FlagsMove(s, s', a) && LoopMoves(s, s', a)
  }

  lemma StartMoves(s: State, x: AcceptStep)
    requires AcceptEnabled(s, x) && StartStep(x)
    ensures StepMoves(s, DoAccept(s, x), Accept(x))
  {
    var s' := DoAccept(s, x);
    if x.RunBegins? {
      assert StepMoves(s, s', Accept(x));
    } else if x.StartFails? {
      assert StepMoves(s, s', Accept(x));
    } else if x.PublishStart? {
      assert StepMoves(s, s', Accept(x));
    } else {
      assert StepMoves(s, s', Accept(x));
    }
  }

  lemma WaitMoves(s: State, x: AcceptStep)
    requires AcceptEnabled(s, x) && WaitStep(x)
    ensures StepMoves(s, DoAccept(s, x), Accept(x))
  {
    var s' := DoAccept(s, x);
    if x.AcceptReturns? {
      assert StepMoves(s, s', Accept(x));
    } else if x.CheckAfterError? {
      assert StepMoves(s, s', Accept(x));
    } else if x.RetryElapses? {
      assert StepMoves(s, s', Accept(x));
    } else if x.CheckAfterAccept? {
      assert StepMoves(s, s', Accept(x));
    } else {
      assert StepMoves(s, s', Accept(x));
    }
  }

  lemma SlotMovesFlags(s: State, x: AcceptStep)
    requires AcceptEnabled(s, x) && SlotStep(x)
    ensures StepMoves(s, DoAccept(s, x), Accept(x))
  {
    var s' := DoAccept(s, x);
    if x.LoadSlots? {
      assert StepMoves(s, s', Accept(x));
    } else if x.CompareExchange? {
      assert StepMoves(s, s', Accept(x));
    } else if x.CheckAfterAcquire? {
      assert StepMoves(s, s', Accept(x));
    } else {
      assert StepMoves(s, s', Accept(x));
    }
  }

  lemma LaunchMoves(s: State, x: AcceptStep)
    requires AcceptEnabled(s, x) && (LaunchStep(x) || UndoStep(x))
    ensures StepMoves(s, DoAccept(s, x), Accept(x))
  {
    var s' := DoAccept(s, x);
    if x.Register? {
      assert StepMoves(s, s', Accept(x));
    } else if x.Launch? {
      assert StepMoves(s, s', Accept(x));
    } else if x.LaunchThrows? {
      assert StepMoves(s, s', Accept(x));
    } else if x.LaunchGivesBack? {
      assert StepMoves(s, s', Accept(x));
    } else if x.StreamThrows? {
      assert StepMoves(s, s', Accept(x));
    } else {
      assert StepMoves(s, s', Accept(x));
    }
  }

  lemma EndMoves(s: State, x: AcceptStep)
    requires AcceptEnabled(s, x) && EndStep(x)
    ensures StepMoves(s, DoAccept(s, x), Accept(x))
  {
    var s' := DoAccept(s, x);
    if x.MarkRunComplete? {
      assert StepMoves(s, s', Accept(x));
    } else if x.CrashSetsFlags? {
      assert StepMoves(s, s', Accept(x));
    } else {
      assert StepMoves(s, s', Accept(x));
    }
  }

  lemma AcceptMoves(s: State, x: AcceptStep)
    requires AcceptEnabled(s, x)
    ensures StepMoves(s, DoAccept(s, x), Accept(x))
  {
    hide DoAccept, AcceptEnabled, StepMoves;
    if StartStep(x) {
      StartMoves(s, x);
    } else if WaitStep(x) {
      WaitMoves(s, x);
    } else if SlotStep(x) {
      SlotMovesFlags(s, x);
    } else if LaunchStep(x) || UndoStep(x) {
      LaunchMoves(s, x);
    } else {
      EndMoves(s, x);
    }
  }

  lemma ConnMoves(s: State, id: Id, x: ConnStep)
    requires ConnEnabled(s, id, x)
    ensures StepMoves(s, DoConn(s, id, x), Conn(id, x))
  {
  }

  lemma DrainMoves(s: State, x: DrainStep)
    requires DrainEnabled(s, x)
    ensures StepMoves(s, DoDrain(s, x), Drain(x))
  {
    var s' := DoDrain(s, x);
    match x {
      case DrainStarts => assert StepMoves(s, s', Drain(x));
      case DrainExpires => assert StepMoves(s, s', Drain(x));
      case CancelArrives => assert StepMoves(s, s', Drain(x));
      case DrainChecks => assert StepMoves(s, s', Drain(x));
      case DrainSetsFlags => assert StepMoves(s, s', Drain(x));
      case DrainClosesAll => assert StepMoves(s, s', Drain(x));
      case DrainForced => assert StepMoves(s, s', Drain(x));
      case CompleteDrainTimer => assert StepMoves(s, s', Drain(x));
    }
  }

  lemma GracefulMoves(s: State, k: Caller, x: CallStep)
    requires CallEnabled(s, k, x) && (x.CallGraceful? || x.GracefulChecks? || x.GracefulSets? || x.GracefulSpawns?)
    ensures StepMoves(s, DoCall(s, k, x), Call(k, x))
  {
    var s' := DoCall(s, k, x);
    match x {
      case CallGraceful => assert StepMoves(s, s', Call(k, x));
      case GracefulChecks => assert StepMoves(s, s', Call(k, x));
      case GracefulSets => GracefulSetsMoves(s, k);
      case GracefulSpawns => assert StepMoves(s, s', Call(k, x));
    }
  }

  lemma GracefulSetsMoves(s: State, k: Caller)
    requires CallEnabled(s, k, GracefulSets)
    ensures StepMoves(s, DoCall(s, k, GracefulSets), Call(k, GracefulSets))
  {
    var s' := DoCall(s, k, GracefulSets);
    if s.stopping {
      assert StepMoves(s, s', Call(k, GracefulSets));
    } else if s.slots > 0 {
      assert StepMoves(s, s', Call(k, GracefulSets));
    } else {
      assert StepMoves(s, s', Call(k, GracefulSets));
    }
  }

  lemma ForceMoves(s: State, k: Caller, x: CallStep)
    requires CallEnabled(s, k, x) && (x.CallForce? || x.ForceSets? || x.ForceClosesAll?)
    ensures StepMoves(s, DoCall(s, k, x), Call(k, x))
  {
    var s' := DoCall(s, k, x);
    match x {
      case CallForce => assert StepMoves(s, s', Call(k, x));
      case ForceSets => assert StepMoves(s, s', Call(k, x));
      case ForceClosesAll => assert StepMoves(s, s', Call(k, x));
    }
  }

  lemma CallMoves(s: State, k: Caller, x: CallStep)
    requires CallEnabled(s, k, x)
    ensures StepMoves(s, DoCall(s, k, x), Call(k, x))
  {
    hide DoCall, CallEnabled, StepMoves;
    if x.CallForce? || x.ForceSets? || x.ForceClosesAll? {
      ForceMoves(s, k, x);
    } else {
      GracefulMoves(s, k, x);
    }
  }

  lemma FinishMoves(s: State, t: Thread, x: FinishStep)
    ensures StepMoves(s, DoFinish(s, t, x), Finish(t, x))
  {
  }

  lemma EveryStepMoves(s: State, a: Action)
    requires Enabled(s, a)
    ensures StepMoves(s, Do(s, a), a)
  {
    hide DoAccept, DoConn, DoDrain, DoCall, DoFinish, AcceptEnabled, ConnEnabled, DrainEnabled, CallEnabled, StepMoves;
    match a {
      case Accept(x) => AcceptMoves(s, x);
      case Conn(id, x) => ConnMoves(s, id, x);
      case Drain(x) => DrainMoves(s, x);
      case Call(k, x) => CallMoves(s, k, x);
      case Finish(t, x) => FinishMoves(s, t, x);
    }
  }

  // ---------- the flags tell the history ----------

  ghost predicate FlagsTell(acts: seq<Action>, s: State) {
    && (s.stopping <==> Happened(acts, Stops)) && (s.force <==> Happened(acts, Forces))
    && (s.startComplete <==> s.stopping || Accept(PublishStart) in acts)
    && (s.runComplete <==> Accept(MarkRunComplete) in acts || Accept(CrashSetsFlags) in acts)
    && (s.stopRequested <==> Happened(acts, StopsExecutor)) && (s.swept <==> Happened(acts, IsCloseAll))
  }

  ghost predicate LoopTells(acts: seq<Action>, s: State) {
    !s.stopping ==> (Ending(s.accept) <==> Happened(acts, EndsLoop))
  }

  lemma FlagsTellMore(acts: seq<Action>, s: State, s': State, a: Action)
    requires FlagsTell(acts, s) && LoopTells(acts, s) && StepMoves(s, s', a)
    ensures FlagsTell(acts + [a], s') && LoopTells(acts + [a], s')
  {
    hide Happened, Ending;
    HappenedMore(acts, a, Stops);
    HappenedMore(acts, a, Forces);
    HappenedMore(acts, a, StopsExecutor);
    HappenedMore(acts, a, IsCloseAll);
    HappenedMore(acts, a, EndsLoop);
    assert forall b :: b in acts + [a] <==> b in acts || b == a;
  }

  lemma {:induction false} RunTells(before: seq<Action>, s: State, acts: seq<Action>, s': State)
    requires FlagsTell(before, s) && LoopTells(before, s) && Run(s, acts, s')
    ensures FlagsTell(before + acts, s') && LoopTells(before + acts, s')
    decreases |acts|
  {
    hide FlagsTell, LoopTells, Do, Enabled, StepMoves;
    if acts == [] {
      assert before + acts == before;
    } else {
      var a := acts[0];
      EveryStepMoves(s, a);
      FlagsTellMore(before, s, Do(s, a), a);
      RunTells(before + [a], Do(s, a), acts[1..], s');
      assert before + [a] + acts[1..] == before + acts;
    }
  }

  // In every reachable state each flag is set exactly when a step that sets it has happened.
  lemma FlagsTellHistory(max: nat, acts: seq<Action>, s: State)
    requires Reached(max, acts, s)
    ensures FlagsTell(acts, s)
  {
    RunTells([], Init(max), acts, s);
    assert [] + acts == acts;
  }

  // The accept loop goes on: while nobody stops the server, the accept coroutine has left its loop
  // exactly when the start failed, building a stream threw, or the accept was aborted.
  lemma LoopGoesOn(max: nat, acts: seq<Action>, s: State)
    requires Reached(max, acts, s) && !s.stopping
    ensures Ending(s.accept) <==> Happened(acts, EndsLoop)
  {
    RunTells([], Init(max), acts, s);
    assert [] + acts == acts;
  }

  // ---------- an unstopped server serves ----------

  // A step on the way to the next connection: nothing fails, and a client connects.
  predicate Serving(a: Action) {
    a.Accept? && !EndsLoop(a) && a.a != AcceptReturns(false)
    && !(a.a.OptionFails? || a.a.LaunchThrows?)
  }

  predicate AllServing(acts: seq<Action>) {
    forall i :: 0 <= i < |acts| ==> Serving(acts[i])
  }

  // How many steps the accept coroutine is from launching a connection.
  function ServeLeft(a: AcceptPc, slots: int, max: nat): nat {
    match a
    case Registered(_) => 1
    case Cleared => 2
    case Holding => 3
    case Loaded(seen) => if seen >= max then 9 else if seen == slots then 4 else 5
    case Checked => 6
    case GotSocket => 7
    case Accepting => 8
    case RetryWait | LaunchFailed | Published => 9
    case GotError | Starting => 10
    case Spawned => 11
    case _ => 0
  }

  function NextServe(a: AcceptPc): AcceptStep
    requires !a.Finished?
  {
    if a.Accepting? then AcceptReturns(true) else NextAccept(a)
  }

  predicate ServeMoves(s: State, s': State) {
    && ServeLeft(s'.accept, s'.slots, s'.max) < ServeLeft(s.accept, s.slots, s.max)
    && s'.conns == s.conns && s'.stopping == s.stopping && !Ending(s'.accept)
  }

  // The server is open for one more connection.
  predicate Roomy(s: State) {
    !s.stopping && !Ending(s.accept) && s.slots - Held(s.accept) < s.max
  }

  lemma StartServes(s: State, x: AcceptStep)
    requires Roomy(s) && AcceptEnabled(s, x) && Serving(Accept(x)) && (StartStep(x) || WaitStep(x))
    ensures ServeMoves(s, DoAccept(s, x))
  {
    var s' := DoAccept(s, x);
    if x.RunBegins? {
      assert ServeMoves(s, s');
    } else if x.PublishStart? {
      assert ServeMoves(s, s');
    } else if x.CheckStartup? {
      assert ServeMoves(s, s');
    } else if x.AcceptReturns? {
      assert ServeMoves(s, s');
    } else if x.CheckAfterError? {
      assert ServeMoves(s, s');
    } else if x.RetryElapses? {
      assert ServeMoves(s, s');
    } else {
      assert ServeMoves(s, s');
    }
  }

  lemma SlotServes(s: State, x: AcceptStep)
    requires Roomy(s) && AcceptEnabled(s, x) && SlotStep(x) && x != CompareExchange(true)
    ensures ServeMoves(s, DoAccept(s, x))
  {
    var s' := DoAccept(s, x);
    if x.LoadSlots? {
      assert ServeMoves(s, s');
    } else if x.CompareExchange? {
      assert ServeMoves(s, s');
    } else {
      assert ServeMoves(s, s');
    }
  }

  lemma LaunchServes(s: State, x: AcceptStep)
    requires Roomy(s) && AcceptEnabled(s, x) && (x.Register? || x.LaunchGivesBack?)
    ensures ServeMoves(s, DoAccept(s, x))
  {
    var s' := DoAccept(s, x);
    if x.Register? {
      assert ServeMoves(s, s');
    } else {
      assert ServeMoves(s, s');
    }
  }

  lemma NextServes(s: State, x: AcceptStep)
    requires Roomy(s) && s.drain.NoDrain? && !s.accept.Registered? && x == NextServe(s.accept)
    ensures AcceptEnabled(s, x) && Serving(Accept(x)) && !x.Launch? && ServeMoves(s, DoAccept(s, x))
  {
    NextServeEnabled(s, x);
    hide DoAccept, AcceptEnabled, ServeMoves, NextServe;
    if StartStep(x) || WaitStep(x) {
      StartServes(s, x);
    } else if SlotStep(x) {
      SlotServes(s, x);
    } else {
      LaunchServes(s, x);
    }
  }

  lemma NextServeEnabled(s: State, x: AcceptStep)
    requires Roomy(s) && s.drain.NoDrain? && x == NextServe(s.accept)
    ensures AcceptEnabled(s, x) && Serving(Accept(x)) && x != CompareExchange(true)
    ensures !s.accept.Registered? ==>
              StartStep(x) || WaitStep(x) || SlotStep(x) || x.Register? || x.LaunchGivesBack?
  {
  }

  lemma StillRoomy(s: State, x: AcceptStep)
    requires Inv(s) && Roomy(s) && AcceptEnabled(s, x) && ServeMoves(s, DoAccept(s, x)) && !x.Launch?
    ensures Inv(DoAccept(s, x)) && Roomy(DoAccept(s, x)) && DoAccept(s, x).max == s.max
  {
    hide DoAccept, AcceptEnabled, Protocol, Counted, Follows;
    if s.slots <= 0 {
      CountedZero(s);
    }
    AcceptInv(s, x);
    AcceptKeeps(s, x);
  }

  lemma LaunchNow(s: State) returns (s': State, id: Id)
    requires Inv(s) && s.accept.Registered? && !s.stopping
    ensures Run(s, [Accept(Launch)], s') && !s'.stopping && s'.accept.Accepting?
    ensures id !in s.conns && s'.conns == s.conns[id := Running]
  {
    id, s' := s.accept.id, Do(s, Accept(Launch));
    OneStep(s, Accept(Launch));
  }

  lemma NoTimerYet(s: State)
    requires Inv(s) && !s.stopping
    ensures s.drain.NoDrain?
  {
  }

  lemma {:induction false} ServesFrom(s: State) returns (more: seq<Action>, s': State, id: Id)
    requires Inv(s) && Roomy(s)
    ensures Run(s, more, s') && AllServing(more) && !s'.stopping && s'.accept.Accepting?
    ensures id !in s.conns && s'.conns == s.conns[id := Running]
    decreases ServeLeft(s.accept, s.slots, s.max)
  {
    hide Inv, DoAccept, DoConn, DoDrain, DoCall, DoFinish, Run, NextServe, AcceptEnabled;
    if s.accept.Registered? {
      s', id := LaunchNow(s);
      return [Accept(Launch)], s', id;
    }
    NoTimerYet(s);
    var a := Accept(NextServe(s.accept));
    NextServes(s, a.a);
    StillRoomy(s, a.a);
    var s1 := Do(s, a);
    OneStep(s, a);
    more, s', id := ServesFrom(s1);
    Chain(s, [a], s1, more, s');
    more := [a] + more;
  }

  // Nobody has to give way: an unstopped server whose loop has not ended, with fewer connections
  // than its maximum, can launch one more, whatever state it is in.
  lemma ServesOneMore(max: nat, acts: seq<Action>, s: State) returns (more: seq<Action>, s': State, id: Id)
    requires Reached(max, acts, s) && !s.stopping && !Happened(acts, EndsLoop) && |Holders(s.conns)| < max
    ensures Run(s, more, s') && AllServing(more) && !s'.stopping && s'.accept.Accepting?
    ensures id !in s.conns && s'.conns == s.conns[id := Running]
  {
    ReachedInv(max, acts, s);
    SlotsExact(max, acts, s);
    LoopGoesOn(max, acts, s);
    more, s', id := ServesFrom(s);
  }

  // Neither does a socket whose option cannot be set.
  lemma OptionFailureIsSurvived(s: State)
    requires s.accept.Checked?
    ensures var s' := Do(s, Accept(OptionFails));
            && s'.accept.Accepting? && s'.slots == s.slots && s'.conns == s.conns && s'.registry == s.registry
  {
  }

  // A connection that cannot be launched costs nothing but itself: its slot and its entry are given
  // back, and the loop goes on.
  lemma LaunchFailureIsSurvived(s: State) returns (s': State)
    requires s.accept.Cleared? || s.accept.Registered?
    ensures Run(s, [Accept(LaunchThrows), Accept(LaunchGivesBack)], s')
    ensures s'.accept.Accepting? && s'.slots == s.slots - 1 && s'.conns == s.conns
    ensures s'.registry == if s.accept.Registered? then s.registry - {s.accept.id} else s.registry
  {
    var a, b := Accept(LaunchThrows), Accept(LaunchGivesBack);
    var s1 := Do(s, a);
    s' := Do(s1, b);
    OneStep(s, a);
    OneStep(s1, b);
    Chain(s, [a], s1, [b], s');
    assert [a] + [b] == [a, b];
  }

  // ---------- stop calls take effect, and a graceful stop is patient ----------

  // What a stop call in each of its stages has already done.
  ghost predicate CallsTell(s: State) {
    forall k | k in s.callers ::
      && (s.callers[k].ForceClosingAll? ==> s.force)
      && (s.callers[k].Returned? || s.callers[k].Spawning? ==> s.stopping)
  }

  // Nobody is told to close before a stop was forced, and the drain timer is cancelled or has ended
  // only when a stop was forced or the server is drained.
  predicate Patient(s: State) {
    && (s.accept.CrashClosing? || s.drain.ForceClosing? || s.drain.ForceFinishing? || s.swept ==> s.force)
    && (s.closing != {} ==> s.swept) && (s.force ==> s.stopping && (s.drain.Sleeping? ==> s.cancelled))
    && (s.cancelled || s.drain.Completing? || s.drain.DrainDone? ==> s.force || Drained(s))
  }

  // What no step takes back, for the steps that do not set the flags themselves.
  predicate NothingLost(s: State, s': State) {
    (s.stopping ==> s'.stopping) && (s.force ==> s'.force) && (s.swept ==> s'.swept) && (Drained(s) ==> Drained(s'))
  }

  lemma AcceptPatient(s: State, x: AcceptStep)
    requires Flags(s) && Patient(s) && CallsTell(s) && AcceptEnabled(s, x) && NothingLost(s, DoAccept(s, x))
    ensures Patient(DoAccept(s, x)) && CallsTell(DoAccept(s, x))
  {
    hide DoAccept;
    AcceptMoves(s, x);
  }

  lemma ConnPatient(s: State, id: Id, x: ConnStep)
    requires Patient(s) && CallsTell(s) && ConnEnabled(s, id, x) && NothingLost(s, DoConn(s, id, x))
    ensures Patient(DoConn(s, id, x)) && CallsTell(DoConn(s, id, x))
  {
  }

  lemma DrainPatient(s: State, x: DrainStep)
    requires Patient(s) && CallsTell(s) && DrainEnabled(s, x) && NothingLost(s, DoDrain(s, x))
    ensures Patient(DoDrain(s, x)) && CallsTell(DoDrain(s, x))
  {
    var s' := DoDrain(s, x);
    match x {
      case DrainStarts => assert Patient(s') && CallsTell(s');
      case DrainExpires => assert Patient(s') && CallsTell(s');
      case CancelArrives => assert Patient(s') && CallsTell(s');
      case DrainChecks => assert Patient(s') && CallsTell(s');
      case DrainSetsFlags => assert Patient(s') && CallsTell(s');
      case DrainClosesAll => assert Patient(s') && CallsTell(s');
      case DrainForced => assert Patient(s') && CallsTell(s');
      case CompleteDrainTimer => assert Patient(s') && CallsTell(s');
    }
  }

  lemma GracefulPatient(s: State, k: Caller, x: CallStep)
    requires Flags(s) && Patient(s) && CallsTell(s) && CallEnabled(s, k, x) && NothingLost(s, DoCall(s, k, x))
    requires x.CallGraceful? || x.GracefulChecks? || x.GracefulSets? || x.GracefulSpawns?
    ensures Patient(DoCall(s, k, x)) && CallsTell(DoCall(s, k, x))
  {
    var s' := DoCall(s, k, x);
    match x {
      case CallGraceful => assert Patient(s') && CallsTell(s');
      case GracefulChecks => assert Patient(s') && CallsTell(s');
      case GracefulSets => assert Patient(s') && CallsTell(s');
      case GracefulSpawns => assert Patient(s') && CallsTell(s');
    }
  }

  lemma ForcePatient(s: State, k: Caller, x: CallStep)
    requires Flags(s) && Patient(s) && CallsTell(s) && CallEnabled(s, k, x) && NothingLost(s, DoCall(s, k, x))
    requires x.CallForce? || x.ForceSets? || x.ForceClosesAll?
    ensures Patient(DoCall(s, k, x)) && CallsTell(DoCall(s, k, x))
  {
    var s' := DoCall(s, k, x);
    match x {
      case CallForce => assert Patient(s') && CallsTell(s');
      case ForceSets => assert Patient(s') && CallsTell(s');
      case ForceClosesAll => assert Patient(s') && CallsTell(s');
    }
  }

  lemma CallPatient(s: State, k: Caller, x: CallStep)
    requires Flags(s) && Patient(s) && CallsTell(s) && CallEnabled(s, k, x) && NothingLost(s, DoCall(s, k, x))
    ensures Patient(DoCall(s, k, x)) && CallsTell(DoCall(s, k, x))
  {
    hide DoCall, CallEnabled, Patient, CallsTell, NothingLost;
    if x.CallForce? || x.ForceSets? || x.ForceClosesAll? {
      ForcePatient(s, k, x);
    } else {
      GracefulPatient(s, k, x);
    }
  }

  lemma FinishPatient(s: State, t: Thread, x: FinishStep)
    requires Patient(s) && CallsTell(s)
    ensures Patient(DoFinish(s, t, x)) && CallsTell(DoFinish(s, t, x))
  {
  }

  lemma NothingIsLost(s: State, a: Action)
    requires Inv(s) && Enabled(s, a)
    ensures Inv(Do(s, a)) && NothingLost(s, Do(s, a))
  {
    hide Do, Enabled, Protocol;
    InvKept(s, a);
    EveryStepMoves(s, a);
    if Drained(s) {
      CountedZero(s);
    }
  }

  lemma FlagsOf(s: State)
    requires Inv(s)
    ensures Flags(s)
  {
  }

  lemma PatientKept(s: State, a: Action)
    requires Inv(s) && Patient(s) && CallsTell(s) && Enabled(s, a)
    ensures Inv(Do(s, a)) && Patient(Do(s, a)) && CallsTell(Do(s, a))
  {
    NothingIsLost(s, a);
    FlagsOf(s);
    hide DoAccept, DoConn, DoDrain, DoCall, DoFinish, AcceptEnabled, ConnEnabled, DrainEnabled, CallEnabled, Inv,
      Patient, CallsTell, NothingLost, Flags;
    match a {
      case Accept(x) => AcceptPatient(s, x);
      case Conn(id, x) => ConnPatient(s, id, x);
      case Drain(x) => DrainPatient(s, x);
      case Call(k, x) => CallPatient(s, k, x);
      case Finish(t, x) => FinishPatient(s, t, x);
    }
  }

  lemma {:induction false} RunPatient(s: State, acts: seq<Action>, s': State)
    requires Inv(s) && Patient(s) && CallsTell(s) && Run(s, acts, s')
    ensures Patient(s') && CallsTell(s')
    decreases |acts|
  {
    hide Inv, Patient, CallsTell, Do, Enabled;
    if acts != [] {
      PatientKept(s, acts[0]);
      RunPatient(Do(s, acts[0]), acts[1..], s');
    }
  }

  lemma ReachedPatient(max: nat, acts: seq<Action>, s: State)
    requires Reached(max, acts, s)
    ensures Inv(s) && Patient(s) && CallsTell(s)
  {
    InitInv(max);
    RunPatient(Init(max), acts, s);
    ReachedInv(max, acts, s);
  }

  // A forced stop cancels the timer: while its coroutine still waits, the cancellation is on its way.
  lemma ForceCancels(max: nat, acts: seq<Action>, s: State)
    requires Reached(max, acts, s) && s.force && s.drain.Sleeping?
    ensures s.cancelled
  {
    ReachedPatient(max, acts, s);
  }

  // ---------- when a drained server waits for its deadline ----------

  // The drain timer's coroutine is still before the end of its wait.
  predicate BeforeDeadline(d: DrainPc) {
    d.Unspawned? || d.Ready? || d.Sleeping?
  }

  // Something cuts the wait short: a forced stop, a cancellation that has not arrived, or a check
  // that sends one.
  ghost predicate CutShort(s: State) {
    BeforeDeadline(s.drain) ==> s.force || s.cancelled || Any(s.owing)
  }

  // A drained state with what holds of it in every run.
  ghost predicate DrainedWell(s: State) {
    Inv(s) && Patient(s) && CallsTell(s) && Drained(s)
  }

  // The next step of such a server with an armed timer, other than the deadline.
  lemma DrainedNearer(s: State) returns (a: Action)
    requires DrainedWell(s) && CutShort(s) && DrainOutstanding(s.drain)
    ensures Enabled(s, a) && Quiet(a) && a != Drain(DrainExpires)
    ensures Do(s, a).stopRequested || (Nearer(s, Do(s, a)) && CutShort(Do(s, a)))
  {
    hide Nearer, NextAccept, DoAccept, DoConn;
    DrainedStands(s);
    if s.accept.CrashClosing? {
      a := Accept(NextAccept(s.accept));
      AcceptNears(s, a);
      CrashSweeps(s);
    } else if s.drain.ForceFinishing? && Busy(s, DrainThread) {
      a := Finish(DrainThread, if DrainThread in s.owing then FinishCheck else StopExecutor);
      FinishNears(s, DrainThread, a);
    } else if s.drain.Unspawned? {
      a := Call(s.drain.armer, GracefulSpawns);
      SpawnNears(s, a);
    } else if s.drain.Sleeping? && !s.cancelled {
      var t :| t in s.owing;
      a := Finish(t, FinishCheck);
      FinishNears(s, t, a);
    } else if s.drain.Sleeping? {
      a := Drain(CancelArrives);
      CancelNears(s);
    } else {
      a := Drain(NextDrain(s.drain));
      DrainNears(s, a);
    }
  }

  lemma DrainedStands(s: State)
    requires DrainedWell(s) && DrainOutstanding(s.drain)
    ensures s.stopping && s.timerActive && OneArmer(s.callers, s.drain)
    ensures s.accept.CrashClosing? || s.accept.Finished?
    ensures s.accept.CrashClosing? ==> !DrainOnStrand(s.drain) && s.force
    ensures s.force && s.drain.Sleeping? ==> s.cancelled
  {
  }

  lemma CrashSweeps(s: State)
    requires s.accept.CrashClosing? && s.force
    ensures NextAccept(s.accept) == CrashClosesAll && DoAccept(s, CrashClosesAll).force
  {
  }

  lemma CancelNears(s: State)
    requires s.drain.Sleeping? && s.cancelled && !AcceptOnStrand(s.accept)
    ensures var a := Drain(CancelArrives); Enabled(s, a) && Quiet(a) && Nearer(s, Do(s, a))
  {
    hide AcceptLeft, DoAccept, DoConn, DoDrain, DoCall, DoFinish, Holders, DrainLeft, Nearer;
    DrainShortens(s, CancelArrives);
    NearerThen(s, Do(s, Drain(CancelArrives)));
  }

  lemma DrainedKept(s: State, a: Action)
    requires DrainedWell(s) && Enabled(s, a)
    ensures DrainedWell(Do(s, a))
  {
    hide Do, Enabled, Patient, CallsTell, Flags;
    NothingIsLost(s, a);
    PatientKept(s, a);
  }

  // A quiet run without the deadline.
  ghost predicate Undelayed(acts: seq<Action>) {
    AllQuiet(acts) && Drain(DrainExpires) !in acts
  }

  lemma UndelayedBoth(acts: seq<Action>, more: seq<Action>)
    requires Undelayed(acts) && Undelayed(more)
    ensures Undelayed(acts + more)
  {
  }

  lemma UndelayedOne(a: Action)
    requires Quiet(a) && a != Drain(DrainExpires)
    ensures Undelayed([a])
  {
  }

  lemma OwnAreUndelayed(acts: seq<Action>)
    requires OwnSteps(acts)
    ensures Undelayed(acts)
  {
  }

  lemma {:induction false} StopsUndelayed(s: State) returns (more: seq<Action>, s': State)
    requires DrainedWell(s) && CutShort(s)
    ensures Run(s, more, s') && s'.stopRequested && Undelayed(more)
    decreases AcceptLeft(s.accept, s.slots, s.max), DrainLeft(s.drain), |Holders(s.conns)|, Work(s)
  {
    if !DrainOutstanding(s.drain) {
      more, s' := DrainedStopsFrom(s);
      OwnAreUndelayed(more);
      return;
    }
    hide DrainedWell, CutShort, Do, Enabled, Quiet, Run, Undelayed;
    var a := DrainedNearer(s);
    var s1 := Do(s, a);
    DrainedKept(s, a);
    OneStep(s, a);
    UndelayedOne(a);
    if s1.stopRequested {
      return [a], s1;
    }
    var rest;
    rest, s' := StopsUndelayed(s1);
    UndelayedBoth([a], rest);
    Chain(s, [a], s1, rest, s');
    more := [a] + rest;
  }

  // Some caller of ForceStop has not set the flags yet.
  ghost predicate SomeForceCalled(callers: map<Caller, CallerPc>) {
    exists k :: At(callers, k, ForceCalled)
  }

  // What can still cut the wait of a drained server short.
  ghost predicate Helped(s: State) {
    BeforeDeadline(s.drain) ==> s.force || s.cancelled || Owed(s) || SomeForceCalled(s.callers)
  }

  lemma HelpedStops(s: State) returns (more: seq<Action>, s': State)
    requires DrainedWell(s) && Helped(s)
    ensures Run(s, more, s') && s'.stopRequested && Undelayed(more)
  {
    if CutShort(s) {
      more, s' := StopsUndelayed(s);
      return;
    }
    NotCutShort(s);
    var k :| At(s.callers, k, ForceCalled);
    var a := Call(k, ForceSets);
    var s1 := ForceNow(s, k);
    hide DrainedWell, Do, Enabled, Run, Undelayed;
    DrainedKept(s, a);
    OneStep(s, a);
    UndelayedOne(a);
    more, s' := StopsUndelayed(s1);
    UndelayedBoth([a], more);
    Chain(s, [a], s1, more, s');
    more := [a] + more;
  }

  lemma NotCutShort(s: State)
    requires DrainedWell(s) && Helped(s) && !CutShort(s)
    ensures SomeForceCalled(s.callers)
  {
  }

  lemma ForceNow(s: State, k: Caller) returns (s': State)
    requires At(s.callers, k, ForceCalled)
    ensures Enabled(s, Call(k, ForceSets)) && s' == Do(s, Call(k, ForceSets)) && CutShort(s')
  {
    s' := Do(s, Call(k, ForceSets));
  }

  // A drained server that nothing helps any more: it waits.
  ghost predicate Waiting(s: State) {
    && DrainedWell(s) && BeforeDeadline(s.drain) && !Helped(s) && s.timerActive
    && s.owing == {} && s.stoppers == {} && s.accept.Finished? && Idle(s) && !s.stopRequested
  }

  lemma NotHelpedWaits(s: State)
    requires DrainedWell(s) && !Helped(s)
    ensures Waiting(s)
  {
    CountedZero(s);
    assert forall t :: t !in s.owing;
    assert forall t :: t !in s.stoppers;
  }

  lemma WaitGoesOn(s: State, a: Action)
    requires Waiting(s) && Enabled(s, a) && Quiet(a) && a != Drain(DrainExpires)
    ensures Waiting(Do(s, a))
  {
    DrainedKept(s, a);
    hide DrainedWell, DoAccept, DoConn, DoFinish;
    if a.Drain? {
      assert a.d.DrainStarts?;
    } else {
      assert a.Call?;
      CallWaits(s, a.k, a.o);
    }
  }

  lemma NoNewForce(callers: map<Caller, CallerPc>, k: Caller, pc: CallerPc)
    requires !SomeForcing(callers) && !SomeForceCalled(callers) && !pc.ForceCalled? && !pc.ForceClosingAll?
    ensures !SomeForcing(callers[k := pc]) && !SomeForceCalled(callers[k := pc])
  {
    var after := callers[k := pc];
    forall j
      ensures !At(after, j, ForceClosingAll)
    {
      assert !At(callers, j, ForceClosingAll);
    }
    forall j
      ensures !At(after, j, ForceCalled)
    {
      assert !At(callers, j, ForceCalled);
    }
  }

  lemma OnlyGracefulCalls(s: State, k: Caller, x: CallStep)
    requires CallEnabled(s, k, x) && !x.CallGraceful? && !x.CallForce?
    requires !SomeForcing(s.callers) && !SomeForceCalled(s.callers)
    ensures x.GracefulChecks? || x.GracefulSets? || x.GracefulSpawns?
  {
    assert !At(s.callers, k, ForceClosingAll) && !At(s.callers, k, ForceCalled);
  }

  lemma CallWaits(s: State, k: Caller, x: CallStep)
    requires CallEnabled(s, k, x) && s.stopping && !x.CallGraceful? && !x.CallForce?
    requires !SomeForcing(s.callers) && !SomeForceCalled(s.callers)
    ensures var s' := DoCall(s, k, x);
            !SomeForcing(s'.callers) && !SomeForceCalled(s'.callers) && (s'.drain == s.drain || s'.drain.Ready?)
            && s' == s.(drain := s'.drain, callers := s'.callers)
  {
    OnlyGracefulCalls(s, k, x);
    NoNewForce(s.callers, k, Returned);
    hide SomeForcing, SomeForceCalled;
    var s' := DoCall(s, k, x);
    if x.GracefulChecks? {
      assert s' == s.(callers := s.callers[k := Returned]);
    } else if x.GracefulSets? {
      assert s' == s.(callers := s.callers[k := Returned]);
    } else {
      assert s' == s.(drain := Ready, callers := s.callers[k := Returned]);
    }
  }

  lemma {:induction false} WaitsOn(s: State, more: seq<Action>, s': State)
    requires Waiting(s) && Run(s, more, s') && Undelayed(more)
    ensures Waiting(s')
    decreases |more|
  {
    if more != [] {
      assert Quiet(more[0]) && more[0] in more && Undelayed(more[1..]);
      hide Waiting, Do, Enabled, Quiet;
      WaitGoesOn(s, more[0]);
      WaitsOn(Do(s, more[0]), more[1..], s');
    }
  }

  // A drained server can be stopped before its deadline, with no new call, exactly when its timer is
  // past its wait, a stop was or is about to be forced, a cancellation has not arrived yet, or a
  // check is owed.
  lemma UndelayedExactly(max: nat, acts: seq<Action>, s: State)
    requires Reached(max, acts, s) && Drained(s)
    ensures Helped(s) <==> exists more, s' :: Run(s, more, s') && s'.stopRequested && Undelayed(more)
  {
    ReachedPatient(max, acts, s);
    if Helped(s) {
      var more, s' := HelpedStops(s);
    } else {
      NotHelpedWaits(s);
      forall more, s' | Run(s, more, s') && Undelayed(more)
        ensures !s'.stopRequested
      {
        WaitsOn(s, more, s');
      }
    }
  }

  lemma OneConnection() returns (acts: seq<Action>, s: State)
    ensures Reached(1, acts, s)
    ensures s == Init(1).(startComplete := true, slots := 1, accept := Accepting, registry := {1}, nextId := 2,
                          conns := map[1 := Running])
  {
    hide Run;
    acts, s := ClearedState();
    acts, s := Then(1, acts, s, Accept(Register));
    acts, s := Then(1, acts, s, Accept(Launch));
  }

  lemma StopWithOneConnection() returns (acts: seq<Action>, s: State)
    ensures Reached(1, acts, s)
    ensures s == Init(1).(startComplete := true, slots := 1, accept := Accepting, registry := {1}, nextId := 2,
                          conns := map[1 := Running], stopping := true, timerActive := true, drain := Unspawned(0),
                          callers := map[0 := Spawning])
  {
    hide Run;
    acts, s := OneConnection();
    acts, s := Then(1, acts, s, Call(0, CallGraceful));
    acts, s := Then(1, acts, s, Call(0, GracefulChecks));
    acts, s := Then(1, acts, s, Call(0, GracefulSets));
    assert s.callers == map[0 := Spawning];
  }

  lemma LastConnectionEnds() returns (acts: seq<Action>, s: State)
    ensures Reached(1, acts, s)
    ensures s == Init(1).(startComplete := true, accept := Accepting, nextId := 2,
                          conns := map[1 := Released], stopping := true, timerActive := true, drain := Unspawned(0),
                          callers := map[0 := Spawning], owing := {ConnThread(1)})
  {
    hide Run;
    acts, s := StopWithOneConnection();
    acts, s := Then(1, acts, s, Conn(1, CloseSocket));
    acts, s := Then(1, acts, s, Conn(1, RemoveEntry));
    acts, s := Then(1, acts, s, Conn(1, ReleaseSlot));
    assert s.conns == map[1 := Released] && s.registry == {};
  }

  lemma LoopEndsToo() returns (acts: seq<Action>, s: State)
    ensures Reached(1, acts, s)
    ensures s == Init(1).(startComplete := true, accept := Finished, nextId := 2, runComplete := true,
                          conns := map[1 := Released], stopping := true, timerActive := true, drain := Unspawned(0),
                          callers := map[0 := Spawning], owing := {ConnThread(1), AcceptThread})
  {
    hide Run;
    acts, s := LastConnectionEnds();
    acts, s := Then(1, acts, s, Accept(AcceptReturns(false)));
    acts, s := Then(1, acts, s, Accept(CheckAfterError(true)));
    acts, s := Then(1, acts, s, Accept(MarkRunComplete));
  }

  // Such a wait can happen: the last connection ends and both checks cancel the timer before its
  // coroutine waits, so that the cancellation finds nothing to cancel.
  lemma CancellationCanBeLost() returns (acts: seq<Action>, s: State)
    ensures Reached(1, acts, s) && Drained(s) && !Helped(s)
  {
    hide Run;
    acts, s := LoopEndsToo();
    acts, s := Then(1, acts, s, Finish(ConnThread(1), FinishCheck));
    acts, s := Then(1, acts, s, Finish(AcceptThread, FinishCheck));
    acts, s := Then(1, acts, s, Drain(CancelArrives));
    assert s.owing == {} && s.callers == map[0 := Spawning];
  }

  // A stop call that has returned has stopped the server, or found it stopping.
  lemma ReturnedCallStops(max: nat, acts: seq<Action>, s: State, k: Caller)
    requires Reached(max, acts, s) && At(s.callers, k, Returned)
    ensures s.stopping
  {
    ReachedPatient(max, acts, s);
  }

  // A graceful stop gives the connections their time: unless a stop is forced, its timer ends only
  // when the server is drained, and nobody is told to close.
  lemma GracefulIsPatient(max: nat, acts: seq<Action>, s: State)
    requires Reached(max, acts, s) && !s.force
    ensures s.closing == {} && !s.swept
    ensures s.drain.DrainDone? ==> Drained(s)
  {
    ReachedPatient(max, acts, s);
  }

  // A graceful stop arms the timer exactly when somebody holds a slot, and otherwise owes the check
  // at once.
  lemma GracefulArms(max: nat, acts: seq<Action>, s: State, k: Caller)
    requires Reached(max, acts, s) && !s.stopping && Enabled(s, Call(k, GracefulSets))
    ensures var s' := Do(s, Call(k, GracefulSets));
            && s'.stopping && !s'.force
            && (s'.drain == Unspawned(k) <==> Holders(s.conns) != {} || AcceptHoldsSlot(s.accept))
            && (s'.drain.NoDrain? <==> s'.noTimer) && (s'.noTimer ==> CallerThread(k) in s'.owing)
  {
    SlotsExact(max, acts, s);
    ReachedInv(max, acts, s);
    NoTimerYet(s);
    NoTimerFlag(s);
    assert Holders(s.conns) == {} <==> |Holders(s.conns)| == 0;
    ReachedPatient(max, acts, s);
  }

  lemma NoTimerFlag(s: State)
    requires Inv(s) && !s.stopping
    ensures !s.noTimer
  {
  }

  // The drain timer's coroutine is forcing a stop itself.
  predicate ForcesItself(d: DrainPc) {
    d.Forcing? || d.ForceClosing? || d.ForceFinishing?
  }

  // It neither waits for the deadline nor acts on it.
  predicate Aside(d: DrainPc) {
    !ForcesItself(d) && !d.Sleeping? && !d.Expired?
  }

  predicate StaysAside(d: DrainPc, d': DrainPc) {
    (!ForcesItself(d) ==> !ForcesItself(d')) && (Aside(d) ==> Aside(d'))
  }

  lemma AsideKept(s: State, a: Action)
    requires Enabled(s, a) && s.force && s.stopping
    ensures StaysAside(s.drain, Do(s, a).drain)
  {
    hide DoAccept, DoConn, DoDrain, DoFinish, DoCall, AcceptEnabled, ConnEnabled, DrainEnabled, CallEnabled;
    EveryStepMoves(s, a);
    if a.Drain? {
      DrainAside(s, a.d);
    }
  }

  lemma DrainAside(s: State, x: DrainStep)
    requires DrainEnabled(s, x) && s.force
    ensures StaysAside(s.drain, DoDrain(s, x).drain)
  {
    var s' := DoDrain(s, x);
    match x {
      case DrainStarts => assert StaysAside(s.drain, s'.drain);
      case DrainExpires => assert StaysAside(s.drain, s'.drain);
      case CancelArrives => assert StaysAside(s.drain, s'.drain);
      case DrainChecks => assert StaysAside(s.drain, s'.drain);
      case CompleteDrainTimer => assert StaysAside(s.drain, s'.drain);
      case _ =>
    }
  }

  // Once a stop was forced, the drain timer forces no second one; and if it was not yet waiting for
  // its deadline, it never will.
  lemma {:induction false} ForcedOnce(s: State, more: seq<Action>, s': State)
    requires Inv(s) && s.force && s.stopping && Run(s, more, s')
    ensures StaysAside(s.drain, s'.drain)
    decreases |more|
  {
    hide Inv, Do, Enabled, StepMoves;
    if more != [] {
      AsideKept(s, more[0]);
      InvKept(s, more[0]);
      EveryStepMoves(s, more[0]);
      ForceStays(s, Do(s, more[0]), more[0]);
      ForcedOnce(Do(s, more[0]), more[1..], s');
    }
  }

  // ---------- a server can always be stopped ----------

  // From every reachable state a graceful stop by a new caller leads to the stop of the executor.
  lemma CanBeStopped(max: nat, acts: seq<Action>, s: State, k: Caller) returns (more: seq<Action>, s': State)
    requires Reached(max, acts, s) && k !in s.callers
    ensures Run(s, [Call(k, CallGraceful)] + more, s') && AllQuiet(more) && s'.stopRequested
  {
    ReachedInv(max, acts, s);
    var a, b := Call(k, CallGraceful), Call(k, GracefulChecks);
    var s1 := Do(s, a);
    var s2 := Do(s1, b);
    OneStep(s, a);
    OneStep(s1, b);
    InvKept(s, a);
    InvKept(s1, b);
    hide Inv;
    more, s' := GracefulGoesOn(s2, k);
    Chain(s1, [b], s2, more, s');
    more := [b] + more;
    Chain(s, [a], s1, more, s');
  }

  lemma GracefulGoesOn(s: State, k: Caller) returns (more: seq<Action>, s': State)
    requires Inv(s) && (s.stopping || At(s.callers, k, GracefulChecked))
    ensures Run(s, more, s') && AllQuiet(more) && s'.stopRequested
  {
    if s.stopping {
      more, s' := StoppingStopsFrom(s);
      return;
    }
    var a := Call(k, GracefulSets);
    var s1 := Do(s, a);
    OneStep(s, a);
    InvKept(s, a);
    more, s' := StoppingStopsFrom(s1);
    Chain(s, [a], s1, more, s');
    more := [a] + more;
  }

  // And so does a forced one, which also tells all registered connections to close.
  lemma CanBeForced(max: nat, acts: seq<Action>, s: State, k: Caller) returns (more: seq<Action>, s': State)
    requires Reached(max, acts, s) && k !in s.callers
    ensures Run(s, [Call(k, CallForce), Call(k, ForceSets), Call(k, ForceClosesAll)] + more, s')
    ensures AllQuiet(more) && s'.stopRequested && s'.force && s.registry <= s'.closing
  {
    ReachedInv(max, acts, s);
    hide Inv, Do, Enabled, Run;
    var s3 := ForceStopCall(s, k);
    more, s' := StoppingStopsFrom(s3);
    KeepsTold(s3, more, s');
    Chain(s, [Call(k, CallForce), Call(k, ForceSets), Call(k, ForceClosesAll)], s3, more, s');
  }

  // The three blocks of a ForceStop that nothing interrupts.
  lemma ForceStopCall(s: State, k: Caller) returns (s3: State)
    requires Inv(s) && k !in s.callers
    ensures Run(s, [Call(k, CallForce), Call(k, ForceSets), Call(k, ForceClosesAll)], s3)
    ensures Inv(s3) && s3.stopping && s3.force && s.registry <= s3.closing
  {
    hide Inv, Run, DoAccept, DoConn, DoDrain, DoFinish;
    var a, b, c := Call(k, CallForce), Call(k, ForceSets), Call(k, ForceClosesAll);
    var s1 := Do(s, a);
    var s2 := Do(s1, b);
    InvKept(s, a);
    InvKept(s1, b);
    s3 := Sweeps(s2, k);
    OneStep(s, a);
    OneStep(s1, b);
    Chain(s1, [b], s2, [c], s3);
    Chain(s, [a], s1, [b] + [c], s3);
    assert [a] + ([b] + [c]) == [a, b, c];
  }

  lemma Sweeps(s: State, k: Caller) returns (s': State)
    requires Inv(s) && At(s.callers, k, ForceClosingAll) && s.force && s.stopping
    ensures Run(s, [Call(k, ForceClosesAll)], s') && Inv(s') && s'.stopping && s'.force && s.registry <= s'.closing
  {
    hide Inv, Run, DoAccept, DoConn, DoDrain, DoFinish;
    s' := Do(s, Call(k, ForceClosesAll));
    InvKept(s, Call(k, ForceClosesAll));
    OneStep(s, Call(k, ForceClosesAll));
  }

  lemma KeepsTold(s: State, more: seq<Action>, s': State)
    requires Inv(s) && Run(s, more, s') && s.force
    ensures s.closing <= s'.closing && s'.force
    decreases |more|
  {
    hide Do, Enabled, Inv, StepMoves;
    RunKeeps(s, more, s');
    if more != [] {
      EveryStepMoves(s, more[0]);
      InvKept(s, more[0]);
      ForceStays(s, Do(s, more[0]), more[0]);
      KeepsTold(Do(s, more[0]), more[1..], s');
    }
  }

  lemma ForceStays(s: State, s': State, a: Action)
    requires StepMoves(s, s', a) && s.force
    ensures s'.force && (s.stopping ==> s'.stopping)
  {
  }
}
