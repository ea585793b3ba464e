// The lifecycle of the thread-pool executor as a transition system: every block under one of
// its mutexes is one step, and worker threads come and go in between.
module Executor {
  import opened Wrappers

  datatype Lifecycle = Created | Starting | Running | Stopping | Joining | Joined

  function Rank(l: Lifecycle): nat {
    match l
    case Created => 0
    case Starting => 1
    case Running => 2
    case Stopping => 3
    case Joining => 4
    case Joined => 5
  }

  type Failure = nat // an exception object

  // What happened to the failure slot, in order: a worker's failure was reported, or a caller of
  // RethrowWorkerFailure left with this one.
  datatype Event = Reported(f: Failure) | Left(with: Option<Failure>)

  // Where the call of Run that passed the start guard is.
  datatype RunPc = NoRun | Launching | Unwinding | Ended

  datatype State = State(
    life: Lifecycle, stopRequested: bool,
    iocStopped: bool,       // io_context::stop has been called
    run: RunPc, runs: nat,  // calls of Run that passed the guard
    alive: nat,             // worker threads that have not left io_context::run
    owing: nat,             // threads that have recorded a failure and are about to call Stop
    slot: Option<Failure>, log: seq<Event>)

  const INITIAL := State(Created, false, false, NoRun, 0, 0, 0, None, [])

  datatype Action =
    | RunEnters        // the guard of Run
    | WorkerStarts     // one thread is created
    | LaunchFails      // creating a thread threw
    | RunSettles       // Run publishes Running or Stopping
    | RunUnwound       // the failed Run has joined its threads
    | WorkerExits
    | Stop
    | JoinEnters       // Join takes the worker threads
    | JoinSettles      // all of them are joined
    | Record(f: Failure) // RecordWorkerFailure fills the slot
    | RecordStops        // and then stops the executor
    | Rethrow

  predicate Enabled(s: State, a: Action) {
    match a
    case RunEnters => s.life.Created?
    case WorkerStarts => s.run.Launching?
    case LaunchFails => s.run.Launching?
    case RunSettles => s.run.Launching?
    case RunUnwound => s.run.Unwinding? && s.alive == 0
    case WorkerExits => s.alive > 0
    case Stop => true
    case JoinEnters => !s.life.Starting? && !s.life.Joined? && !s.life.Joining?
    case JoinSettles => s.life.Joining? && s.alive == 0
    case Record(_) => true
    case RecordStops => s.owing > 0
    case Rethrow => true
  }

  function Stopped(s: State): State {
    var t := s.(life := if s.life.Created? || s.life.Running? then Stopping else s.life,
                stopRequested := s.stopRequested || s.life.Starting?);
    if t.life.Joined? then t else t.(iocStopped := true)
  }

  function Do(s: State, a: Action): State
    requires Enabled(s, a)
  {
    match a
    case RunEnters => s.(life := Starting, run := Launching, runs := s.runs + 1)
    case WorkerStarts => s.(alive := s.alive + 1)
    case LaunchFails => Stopped(s).(run := Unwinding)
    case RunSettles => s.(life := if s.stopRequested then Stopping else Running, run := Ended)
    case RunUnwound => s.(life := Joined, run := Ended)
    case WorkerExits => s.(alive := s.alive - 1)
    case Stop => Stopped(s)
    case JoinEnters => s.(life := Joining)
    case JoinSettles => s.(life := Joined)
    case Record(f) =>
      s.(slot := if s.slot.None? then Some(f) else s.slot, log := s.log + [Reported(f)], owing := s.owing + 1)
    case RecordStops => Stopped(s).(owing := s.owing - 1)
    case Rethrow => s.(slot := None, log := s.log + [Left(s.slot)])
  }

  // What the slot must hold after these events: the first failure reported since somebody last
  // left.
  function FirstPending(log: seq<Event>): Option<Failure> {
    if log == [] then None
    else match log[|log| - 1]
      case Left(_) => None
      case Reported(f) =>
        var earlier := FirstPending(log[..|log| - 1]);
        if earlier.None? then Some(f) else earlier
  }

  // The block of reports that ends at position i, told without recursion: it starts at k.
  predicate BlockStart(log: seq<Event>, k: nat, i: nat)
    requires i <= |log|
  {
    k < i && (k == 0 || log[k - 1].Left?) && forall j :: k <= j < i ==> log[j].Reported?
  }

  lemma {:induction false} PendingIsBlockStart(log: seq<Event>, i: nat)
    requires i <= |log|
    ensures FirstPending(log[..i]).None? <==> i == 0 || log[i - 1].Left?
    ensures forall k: nat :: BlockStart(log, k, i) ==> FirstPending(log[..i]) == Some(log[k].f)
    ensures FirstPending(log[..i]).Some? ==> exists k: nat :: BlockStart(log, k, i)
  {
    hide FirstPending, BlockStart;
    if i == 0 {
      NonePending(log);
      return;
    }
    PendingIsBlockStart(log, i - 1);
    PendingStep(log, i);
    BlockStep(log, i);
    if log[i - 1].Reported? && i > 1 && log[i - 2].Reported? {
      var k: nat :| BlockStart(log, k, i - 1);
      assert BlockStart(log, k, i);
    }
  }

  lemma NonePending(log: seq<Event>)
    ensures FirstPending(log[..0]).None? && forall k: nat :: !BlockStart(log, k, 0)
  {
  }

  lemma PendingStep(log: seq<Event>, i: nat)
    requires 0 < i <= |log|
    ensures FirstPending(log[..i]) ==
            if log[i - 1].Left? then None
            else if FirstPending(log[..i - 1]).None? then Some(log[i - 1].f) else FirstPending(log[..i - 1])
  {
    assert log[..i][..i - 1] == log[..i - 1];
  }

  lemma BlockStep(log: seq<Event>, i: nat)
    requires 0 < i <= |log|
    ensures forall k: nat {:trigger BlockStart(log, k, i)} ::
              BlockStart(log, k, i) <==>
              && log[i - 1].Reported?
              && if k == i - 1 then k == 0 || log[k - 1].Left? else BlockStart(log, k, i - 1)
    ensures log[i - 1].Reported? && (i == 1 || log[i - 2].Left?) ==> BlockStart(log, i - 1, i)
    ensures forall k: nat {:trigger BlockStart(log, k, i - 1)} ::
              BlockStart(log, k, i - 1) && log[i - 1].Reported? ==> BlockStart(log, k, i)
  {
  }

  // Everybody who left, left with what was pending.
  predicate Honest(log: seq<Event>) {
    forall i :: 0 <= i < |log| && log[i].Left? ==> log[i].with == FirstPending(log[..i])
  }

  predicate SlotRight(slot: Option<Failure>, log: seq<Event>) {
    slot == FirstPending(log) && Honest(log)
  }

  predicate Inv(s: State) {
    && (s.life.Starting? <==> s.run.Launching? || s.run.Unwinding?)
    && s.runs == (if s.run.NoRun? then 0 else 1)
    && (s.life.Created? ==> s.run.NoRun? && !s.iocStopped && !s.stopRequested)
    && (s.life.Starting? ==> (s.stopRequested <==> s.iocStopped))
    && (s.life.Running? ==> !s.iocStopped && s.run.Ended?)
    && (s.run.NoRun? || s.life.Joined? ==> s.alive == 0)
    && (s.slot.Some? && s.owing == 0 ==> s.iocStopped || s.life.Joined?)
    && SlotRight(s.slot, s.log)
  }

  lemma SlotKept(slot: Option<Failure>, log: seq<Event>, e: Event)
    requires SlotRight(slot, log) && (e.Left? ==> e.with == slot)
    ensures SlotRight(if e.Left? then None else if slot.None? then Some(e.f) else slot, log + [e])
  {
    var next := log + [e];
    assert next[..|log|] == log;
    forall i | 0 <= i < |next| && next[i].Left?
      ensures next[i].with == FirstPending(next[..i])
    {
      if i < |log| {
        assert next[..i] == log[..i];
      }
    }
  }

  lemma InvKept(s: State, a: Action)
    requires Inv(s) && Enabled(s, a)
    ensures Inv(Do(s, a)) && Rank(s.life) <= Rank(Do(s, a).life)
  {
    match a
    case Record(f) => SlotKept(s.slot, s.log, Reported(f));
    case Rethrow => SlotKept(s.slot, s.log, Left(s.slot));
    case _ =>
  }

  ghost predicate Run(s: State, acts: seq<Action>, s': State)
    decreases |acts|
  {
    if acts == [] then s' == s else Enabled(s, acts[0]) && Run(Do(s, acts[0]), acts[1..], s')
  }

  lemma {:induction false} RunKeeps(s: State, acts: seq<Action>, s': State)
    requires Inv(s) && Run(s, acts, s')
    ensures Inv(s') && Rank(s.life) <= Rank(s'.life)
    ensures s.iocStopped ==> s'.iocStopped
    decreases |acts|
  {
    if acts != [] {
      InvKept(s, acts[0]);
      RunKeeps(Do(s, acts[0]), acts[1..], s');
    }
  }

  // Over every interleaving the lifecycle only moves forward, at most one Run passes its guard,
  // and when the executor is joined no worker is left.
  lemma ForwardOnly(acts: seq<Action>, s: State, more: seq<Action>, s': State)
    requires Run(INITIAL, acts, s) && Run(s, more, s')
    ensures Rank(s.life) <= Rank(s'.life) && s'.runs <= 1
    ensures s'.life.Joined? ==> s'.alive == 0
  {
    RunKeeps(INITIAL, acts, s);
    RunKeeps(s, more, s');
  }

  // A stop is never lost, whenever it comes: from then on the context stays stopped and no state
  // is Running, even when the stop fell into the middle of Run.
  lemma StopNotLost(acts: seq<Action>, s: State, more: seq<Action>, s': State)
    requires Run(INITIAL, acts, s) && !s.life.Joined?
    requires Run(Do(s, Stop), more, s')
    ensures s'.iocStopped && !s'.life.Running? && !s'.life.Created?
  {
    RunKeeps(INITIAL, acts, s);
    InvKept(s, Stop);
    RunKeeps(Do(s, Stop), more, s');
  }

  // A failure that waits to be rethrown has stopped the executor by itself, with no call of Stop
  // from outside, unless a thread that recorded one is still about to.
  lemma FailureStops(acts: seq<Action>, s: State)
    requires Run(INITIAL, acts, s) && s.slot.Some? && s.owing == 0
    ensures s.iocStopped || s.life.Joined?
  {
    RunKeeps(INITIAL, acts, s);
  }

  // Whoever leaves with a failure leaves with the first one reported since the previous caller
  // left, and nobody leaves with nothing while a failure is waiting: the first failure is neither
  // overwritten nor rethrown twice.
  lemma FirstFailureRethrownOnce(acts: seq<Action>, s: State, i: nat)
    requires Run(INITIAL, acts, s) && i < |s.log| && s.log[i].Left?
    ensures s.log[i].with.None? <==> i == 0 || s.log[i - 1].Left?
    ensures s.log[i].with.Some? ==>
      exists k: nat :: BlockStart(s.log, k, i) && s.log[i].with == Some(s.log[k].f)
  {
    RunKeeps(INITIAL, acts, s);
    PendingIsBlockStart(s.log, i);
  }

  // ---------- every field tells what has happened ----------

  // Some step so far stops the executor.
  predicate StoppedIn(acts: seq<Action>) {
    Stop in acts || RecordStops in acts || LaunchFails in acts
  }

  predicate LifeTells(acts: seq<Action>, life: Lifecycle) {
    match life
    case Created => RunEnters !in acts && !StoppedIn(acts) && JoinEnters !in acts
    case Starting => RunEnters in acts && RunSettles !in acts && RunUnwound !in acts && JoinEnters !in acts
    case Running => RunSettles in acts && !StoppedIn(acts) && JoinEnters !in acts
    case Stopping => (RunEnters in acts ==> RunSettles in acts) && StoppedIn(acts) && JoinEnters !in acts
                     && RunUnwound !in acts
    case Joining => JoinEnters in acts && JoinSettles !in acts
    case Joined => JoinSettles in acts || RunUnwound in acts
  }

  predicate RunTells(acts: seq<Action>, run: RunPc) {
    match run
    case NoRun => RunEnters !in acts
    case Launching => RunEnters in acts && RunSettles !in acts && LaunchFails !in acts
    case Unwinding => LaunchFails in acts && RunUnwound !in acts
    case Ended => RunSettles in acts || RunUnwound in acts
  }

  // Run, once entered, settles or fails and unwinds; and what ends comes after what begins.
  predicate InOrder(acts: seq<Action>) {
    && (RunSettles in acts || LaunchFails in acts ==> RunEnters in acts)
    && (RunUnwound in acts ==> LaunchFails in acts) && !(RunSettles in acts && LaunchFails in acts)
    && (JoinSettles in acts ==> JoinEnters in acts) && !(JoinEnters in acts && RunUnwound in acts)
    && (JoinEnters in acts && RunEnters in acts ==> RunSettles in acts)
  }

  // The i-th step stops a context that is not joined.
  predicate StopsAt(acts: seq<Action>, i: int) {
    0 <= i < |acts| && StoppedIn([acts[i]]) && JoinSettles !in acts[..i] && RunUnwound !in acts[..i]
  }

  // The reports and the departures, in their order.
  function Story(acts: seq<Action>): seq<Option<Failure>> {
    if acts == [] then []
    else
      var n := |acts| - 1;
      Story(acts[..n]) + match acts[n]
                         case Record(f) => [Some(f)]
                         case Rethrow => [None]
                         case _ => []
  }

  function Told(e: Event): Option<Failure> {
    match e
    case Reported(f) => Some(f)
    case Left(_) => None
  }

  function Reports(story: seq<Option<Failure>>): nat {
    if story == [] then 0 else Reports(story[..|story| - 1]) + if story[|story| - 1].Some? then 1 else 0
  }

  // Where the lifecycle and the call of Run stand.
  predicate StageTells(acts: seq<Action>, s: State) {
    && LifeTells(acts, s.life) && RunTells(acts, s.run) && InOrder(acts)
    && (s.life.Starting? ==> (s.stopRequested <==> StoppedIn(acts)))
  }

  ghost predicate Tells(acts: seq<Action>, s: State) {
    && StageTells(acts, s) && LogTells(acts, s)
    && (s.iocStopped <==> exists i :: StopsAt(acts, i))
    && s.alive + multiset(acts)[WorkerExits] == multiset(acts)[WorkerStarts]
  }

  ghost predicate LogTells(acts: seq<Action>, s: State) {
    && |s.log| == |Story(acts)| && (forall i :: 0 <= i < |s.log| ==> Told(s.log[i]) == Story(acts)[i])
    && s.owing + multiset(acts)[RecordStops] == Reports(Story(acts))
  }

  lemma OneMore(acts: seq<Action>, a: Action)
    ensures forall b :: b in acts + [a] <==> b in acts || b == a
    ensures forall b :: multiset(acts + [a])[b] == multiset(acts)[b] + if b == a then 1 else 0
  {
  }

  lemma StageTellsMore(acts: seq<Action>, s: State, a: Action)
    requires StageTells(acts, s) && Inv(s) && Enabled(s, a)
    ensures StageTells(acts + [a], Do(s, a))
  {
    hide SlotRight;
    OneMore(acts, a);
    var s', more := Do(s, a), acts + [a];
    match a
    case RunEnters => assert StageTells(more, s');
    case LaunchFails => assert StageTells(more, s');
    case RunSettles => assert StageTells(more, s');
    case RunUnwound => assert StageTells(more, s');
    case Stop => assert StageTells(more, s');
    case JoinEnters => assert StageTells(more, s');
    case JoinSettles => assert StageTells(more, s');
    case RecordStops => assert StageTells(more, s');
    case _ => assert s'.life == s.life && s'.run == s.run && s'.stopRequested == s.stopRequested;
  }

  lemma StopTellsMore(acts: seq<Action>, s: State, a: Action)
    requires StageTells(acts, s) && Inv(s) && Enabled(s, a) && (s.iocStopped <==> exists i :: StopsAt(acts, i))
    ensures Do(s, a).iocStopped <==> exists i :: StopsAt(acts + [a], i)
  {
    hide SlotRight;
    var more, n := acts + [a], |acts|;
    forall i | 0 <= i < n
      ensures StopsAt(more, i) <==> StopsAt(acts, i)
    {
      assert more[..i] == acts[..i];
    }
    assert more[..n] == acts;
    assert StopsAt(more, n) <==> StoppedIn([a]) && !s.life.Joined?;
    if s.iocStopped {
      var i :| StopsAt(acts, i);
      assert StopsAt(more, i);
    }
  }

  lemma StoryMore(acts: seq<Action>, a: Action)
    ensures Story(acts + [a]) == Story(acts) + if a.Record? then [Some(a.f)] else if a.Rethrow? then [None] else []
  {
    assert (acts + [a])[..|acts|] == acts;
  }

  lemma ReportsMore(story: seq<Option<Failure>>, x: Option<Failure>)
    ensures Reports(story + [x]) == Reports(story) + if x.Some? then 1 else 0
  {
    assert (story + [x])[..|story|] == story;
  }

  lemma LogTellsMore(acts: seq<Action>, s: State, a: Action)
    requires LogTells(acts, s) && Enabled(s, a)
    ensures LogTells(acts + [a], Do(s, a))
  {
    hide Story, Reports;
    OneMore(acts, a);
    StoryMore(acts, a);
    ReportsMore(Story(acts), if a.Record? then Some(a.f) else None);
    assert Story(acts) + [] == Story(acts);
  }

  lemma TellsMore(acts: seq<Action>, s: State, a: Action)
    requires Tells(acts, s) && Inv(s) && Enabled(s, a)
    ensures Tells(acts + [a], Do(s, a))
  {
    hide StageTells, LogTells, Inv;
    StageTellsMore(acts, s, a);
    StopTellsMore(acts, s, a);
    LogTellsMore(acts, s, a);
    OneMore(acts, a);
  }

  lemma {:induction false} RunTellsAll(before: seq<Action>, s: State, acts: seq<Action>, s': State)
    requires Tells(before, s) && Inv(s) && Run(s, acts, s')
    ensures Tells(before + acts, s')
    decreases |acts|
  {
    hide Tells, Inv, Do, Enabled;
    if acts == [] {
      assert before + acts == before;
    } else {
      TellsMore(before, s, acts[0]);
      InvKept(s, acts[0]);
      RunTellsAll(before + [acts[0]], Do(s, acts[0]), acts[1..], s');
      assert before + [acts[0]] + acts[1..] == before + acts;
    }
  }

  // In every reachable state the lifecycle, the context, the number of workers and the record of
  // failures are those that the steps so far call for.
  lemma StateTellsHistory(acts: seq<Action>, s: State)
    requires Run(INITIAL, acts, s)
    ensures Tells(acts, s)
  {
    RunTellsAll([], INITIAL, acts, s);
    assert [] + acts == acts;
  }

  // So an executor that is started runs, unless something stops or joins it.
  lemma RunsUnlessStopped(acts: seq<Action>, s: State)
    requires Run(INITIAL, acts, s) && s.run.Ended? && !StoppedIn(acts) && JoinEnters !in acts
    ensures s.life.Running?
  {
    StateTellsHistory(acts, s);
  }

  // ---------- what can be reached ----------

  lemma {:induction false} Chain(s: State, acts: seq<Action>, s1: State, more: seq<Action>, s2: State)
    requires Run(s, acts, s1) && Run(s1, more, s2)
    ensures Run(s, acts + more, s2)
    decreases |acts|
  {
    if acts == [] {
      assert acts + more == more;
    } else {
      Chain(Do(s, acts[0]), acts[1..], s1, more, s2);
      assert (acts + more)[1..] == acts[1..] + more;
    }
  }

  lemma OneStep(s: State, a: Action)
    requires Enabled(s, a)
    ensures Run(s, [a], Do(s, a))
  {
    assert [a][1..] == [] && Run(Do(s, a), [], Do(s, a));
  }

  lemma {:induction false} Launched(n: nat) returns (acts: seq<Action>, s: State)
    ensures Run(INITIAL, acts, s) && s == INITIAL.(life := Starting, run := Launching, runs := 1, alive := n)
  {
    var a := if n == 0 then RunEnters else WorkerStarts;
    acts, s := [], INITIAL;
    if n > 0 {
      acts, s := Launched(n - 1);
    }
    OneStep(s, a);
    Chain(INITIAL, acts, s, [a], Do(s, a));
    acts, s := acts + [a], Do(s, a);
  }

  // Any number of workers can be brought up, and then the executor is running.
  lemma CanRun(n: nat) returns (acts: seq<Action>, s: State)
    ensures Run(INITIAL, acts, s) && s.life.Running? && s.alive == n && !s.iocStopped
  {
    acts, s := Launched(n);
    OneStep(s, RunSettles);
    Chain(INITIAL, acts, s, [RunSettles], Do(s, RunSettles));
    acts, s := acts + [RunSettles], Do(s, RunSettles);
  }

  function StagesLeft(s: State): nat {
    s.alive + match s.life
              case Joined => 0
              case Joining => 1
              case Starting => if s.run.Launching? then 4 else 3
              case _ => 2
  }

  // With the workers leaving, an executor comes to its end without a stop: Run settles or unwinds, and
  // Join joins the workers.
  lemma {:induction false} Settles(s: State) returns (more: seq<Action>, s': State)
    requires Inv(s)
    ensures Run(s, more, s') && s'.life.Joined? && Stop !in more && LaunchFails !in more
    decreases StagesLeft(s)
  {
    hide SlotRight;
    if s.life.Joined? {
      return [], s;
    }
    var a := if s.life.Starting? && s.run.Launching? then RunSettles
             else if s.life.Starting? then (if s.alive > 0 then WorkerExits else RunUnwound)
             else if s.life.Joining? then (if s.alive > 0 then WorkerExits else JoinSettles)
             else JoinEnters;
    InvKept(s, a);
    OneStep(s, a);
    more, s' := Settles(Do(s, a));
    Chain(s, [a], Do(s, a), more, s');
    more := [a] + more;
  }

  // From every reachable state Join leads to the end, after a Stop or without one.
  lemma CanBeJoined(acts: seq<Action>, s: State) returns (more: seq<Action>, s': State)
    requires Run(INITIAL, acts, s)
    ensures Run(s, [Stop] + more, s') && s'.life.Joined? && s'.alive == 0 && Stop !in more && LaunchFails !in more
    ensures exists own, s1 :: Run(s, own, s1) && s1.life.Joined? && s1.alive == 0 && Stop !in own
  {
    RunKeeps(INITIAL, acts, s);
    var own, s1 := Settles(s);
    RunKeeps(s, own, s1);
    InvKept(s, Stop);
    OneStep(s, Stop);
    more, s' := Settles(Do(s, Stop));
    Chain(s, [Stop], Do(s, Stop), more, s');
    RunKeeps(s, [Stop] + more, s');
  }
}
