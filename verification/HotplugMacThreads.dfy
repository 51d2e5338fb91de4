/**
 The macOS hotplug registration as two threads: the worker that sets up, sends one message, runs its
 run loop and tears down, and the owner that waits for the message, and later stops the loop and joins.

 One system call is one step, with any answer; a run is any interleaving. Whether a stop request that
 comes before the run loop runs is kept is up to the system, so both are steps.
 */
module HotplugMacThreads {
  import opened HotplugMac

  datatype Resource = Port | ArrivedCtx | ArrivedIter | RemovedCtx | RemovedIter

  const All: set<Resource> := {Port, ArrivedCtx, ArrivedIter, RemovedCtx, RemovedIter}

  /** The call the worker makes next. `todo` is what it is about to give back, in order. */
  datatype WorkerAt =
    | CreatingPort
    | GettingSource
    | AddingArrival
    | AddingRemoval
    | Unwinding(todo: seq<Resource>)
    | Sending(message: Message)
    | Starting
    | Running
    | TearingDown(todo: seq<Resource>)
    | Exited

  /** `Failed` and `Registered`: `register` has returned; `Dropped`: `drop` has. */
  datatype OwnerAt = Receiving | JoiningFailed | Failed | Registered | JoiningStopped | Dropped

  datatype Stop = NotAsked | Asked | Lost

  datatype State = State(
    worker: WorkerAt,
    owner: OwnerAt,
    stop: Stop,
    sent: seq<Message>,
    acquired: set<Resource>,
    held: set<Resource>,
    freed: multiset<Resource>)

  ghost predicate Init(s: State) {
    s == State(CreatingPort, Receiving, NotAsked, [], {}, {}, multiset{})
  }

  function Take(s: State, rs: set<Resource>, next: WorkerAt): State {
    s.(worker := next, acquired := s.acquired + rs, held := s.held + rs)
  }

  function Free(s: State, r: Resource, next: WorkerAt): State {
    s.(worker := next, held := s.held - {r}, freed := s.freed + multiset{r})
  }

  /** The worker up to and including its message: each call succeeds, or what is held is given back. */
  ghost predicate SetupStep(s: State, t: State) {
    match s.worker
    case CreatingPort => t == Take(s, {Port}, GettingSource) || t == s.(worker := Sending(Null))
    case GettingSource => t == Take(s, {ArrivedCtx}, AddingArrival) || t == s.(worker := Unwinding([Port]))
    case AddingArrival =>
      || t == Take(s, {ArrivedIter, RemovedCtx}, AddingRemoval)
      || t == s.(worker := Unwinding([ArrivedCtx, Port]))
    case AddingRemoval =>
      || t == Take(s, {RemovedIter}, Sending(RunLoop))
      || t == s.(worker := Unwinding([RemovedCtx, ArrivedCtx, ArrivedIter, Port]))
    case Unwinding(todo) =>
      t == if todo == [] then s.(worker := Sending(Null)) else Free(s, todo[0], Unwinding(todo[1..]))
    case Sending(m) => t == s.(worker := if m == Null then Exited else Starting, sent := s.sent + [m])
    case _ => false
  }

  /** The worker behind its message. An early stop request is kept or lost; only a kept one ends the loop. */
  ghost predicate LoopStep(s: State, t: State) {
    match s.worker
    case Starting => t == s.(worker := Running) || (s.stop == Asked && t == s.(worker := Running, stop := Lost))
    case Running =>
      s.stop == Asked && t == s.(worker := TearingDown([ArrivedIter, RemovedIter, Port, ArrivedCtx, RemovedCtx]))
    case TearingDown(todo) =>
      t == if todo == [] then s.(worker := Exited) else Free(s, todo[0], TearingDown(todo[1..]))
    case _ => false
  }

  /** The receive and the two joins block until there is a message, or the worker has exited. */
  ghost predicate OwnerStep(s: State, t: State) {
    match s.owner
    case Receiving => s.sent != [] && t == s.(owner := if s.sent[0] == Null then JoiningFailed else Registered)
    case JoiningFailed => s.worker == Exited && t == s.(owner := Failed)
    case Registered => t == s.(owner := JoiningStopped, stop := Asked)
    case JoiningStopped => s.worker == Exited && t == s.(owner := Dropped)
    case _ => false
  }

  ghost predicate Next(s: State, t: State) {
    SetupStep(s, t) || LoopStep(s, t) || OwnerStep(s, t)
  }

  ghost predicate StepAt(run: seq<State>, i: nat)
    requires i + 1 < |run|
  {
    Next(run[i], run[i + 1])
  }

  ghost predicate IsRun(run: seq<State>) {
    && run != [] && Init(run[0])
    && forall i: nat :: i + 1 < |run| ==> StepAt(run, i)
  }

  // ---------------------------------------------------------------------------------------------
  // Safety
  // ---------------------------------------------------------------------------------------------

  /** `todo` lists what is held, each once. */
  ghost predicate Lists(todo: seq<Resource>, held: set<Resource>) {
    && (forall r :: r in held <==> r in todo)
    && forall i, j :: 0 <= i < j < |todo| ==> todo[i] != todo[j]
  }

  ghost predicate WorkerInv(s: State) {
    match s.worker
    case CreatingPort => s.sent == [] && s.acquired == s.held == {}
    case GettingSource => s.sent == [] && s.acquired == s.held == {Port}
    case AddingArrival => s.sent == [] && s.acquired == s.held == {Port, ArrivedCtx}
    case AddingRemoval => s.sent == [] && s.acquired == s.held == {Port, ArrivedCtx, ArrivedIter, RemovedCtx}
    case Unwinding(todo) => s.sent == [] && Lists(todo, s.held)
    case Sending(m) => s.sent == [] && (m == Null ==> s.held == {}) && (m == RunLoop ==> s.acquired == s.held == All)
    case Starting => s.sent == [RunLoop] && s.acquired == s.held == All && s.stop != Lost
    case Running => s.sent == [RunLoop] && s.acquired == s.held == All
    case TearingDown(todo) => s.sent == [RunLoop] && s.acquired == All && Lists(todo, s.held) && s.stop == Asked
    case Exited =>
      s.held == {} && (s.sent == [Null] || (s.sent == [RunLoop] && s.acquired == All && s.stop == Asked))
  }

  ghost predicate OwnerInv(s: State) {
    match s.owner
    case Receiving => s.stop == NotAsked
    case JoiningFailed => s.stop == NotAsked && s.sent == [Null]
    case Failed => s.stop == NotAsked && s.sent == [Null] && s.worker == Exited
    case Registered => s.stop == NotAsked && s.sent == [RunLoop]
    case JoiningStopped => s.stop != NotAsked && s.sent == [RunLoop]
    case Dropped => s.stop == Asked && s.sent == [RunLoop] && s.worker == Exited
  }

  ghost predicate Inv(s: State) {
    && WorkerInv(s) && OwnerInv(s)
    && Balanced(s)
  }

  /** Everything taken is held or was given back once. */
  ghost predicate Balanced(s: State) {
    s.freed + multiset(s.held) == multiset(s.acquired)
  }

  lemma TakeKeepsBalance(s: State, rs: set<Resource>, next: WorkerAt)
    requires Balanced(s) && s.held == s.acquired && rs !! s.held
    ensures Balanced(Take(s, rs, next))
  {
    forall r ensures s.freed[r] == 0 {
      assert (s.freed + multiset(s.held))[r] == multiset(s.held)[r];
    }
    assert s.freed == multiset{};
  }

  lemma FreeKeepsBalance(s: State, r: Resource, next: WorkerAt)
    requires Balanced(s) && r in s.held
    ensures Balanced(Free(s, r, next))
  {
    assert multiset(s.held) == multiset(s.held - {r}) + multiset{r};
  }

  lemma FreeKeepsLists(todo: seq<Resource>, held: set<Resource>)
    requires Lists(todo, held) && todo != []
    ensures todo[0] in held && Lists(todo[1..], held - {todo[0]})
  {
  }

  lemma SetupKeepsInv(s: State, t: State)
    requires Inv(s) && SetupStep(s, t)
    ensures Inv(t)
  {
    match s.worker
    case CreatingPort => TakeKeepsBalance(s, {Port}, GettingSource);
    case GettingSource => TakeKeepsBalance(s, {ArrivedCtx}, AddingArrival);
    case AddingArrival => TakeKeepsBalance(s, {ArrivedIter, RemovedCtx}, AddingRemoval);
    case AddingRemoval => TakeKeepsBalance(s, {RemovedIter}, Sending(RunLoop));
    case Unwinding(todo) =>
      if todo != [] {
        FreeKeepsLists(todo, s.held);
        FreeKeepsBalance(s, todo[0], Unwinding(todo[1..]));
      }
    case Sending(_) =>
  }

  lemma LoopKeepsInv(s: State, t: State)
    requires Inv(s) && LoopStep(s, t)
    ensures Inv(t)
  {
    if s.worker.TearingDown? && s.worker.todo != [] {
      FreeKeepsLists(s.worker.todo, s.held);
      FreeKeepsBalance(s, s.worker.todo[0], TearingDown(s.worker.todo[1..]));
    }
  }

  lemma NextKeepsInv(s: State, t: State)
    requires Inv(s) && Next(s, t)
    ensures Inv(t)
  {
    if SetupStep(s, t) {
      SetupKeepsInv(s, t);
    } else if LoopStep(s, t) {
      LoopKeepsInv(s, t);
    }
  }

  lemma {:induction false} RunKeepsInv(run: seq<State>, i: nat)
    requires IsRun(run) && i < |run|
    ensures Inv(run[i])
    decreases i
  {
    if 0 < i {
      RunKeepsInv(run, i - 1);
      assert StepAt(run, i - 1);
      NextKeepsInv(run[i - 1], run[i]);
    }
  }

  /**
   The handshake. On every interleaving: at most one message is sent, a null one only with nothing held any
   more; `register` has failed only on the null message, with the worker joined; while a registration is
   held and not stopped, all five resources are; `drop` has returned only with the worker gone; and once the
   worker has exited, everything it ever took was given back exactly once.
   */
  lemma HandshakeIsSafe(run: seq<State>, i: nat)
    requires IsRun(run) && i < |run|
    ensures var s := run[i];
            && |s.sent| <= 1
            && (s.sent == [Null] ==> s.held == {} && s.owner in {Receiving, JoiningFailed, Failed})
            && (s.owner == Failed ==> s.sent == [Null])
            && (s.owner == Registered ==> s.sent == [RunLoop] && s.held == All)
            && (s.owner in {Failed, Dropped} ==> s.worker == Exited)
            && (s.worker == Exited ==> |s.sent| == 1 && s.held == {} && s.freed == multiset(s.acquired))
            && (s.owner == Dropped ==> s.freed == multiset(All))
  {
    RunKeepsInv(run, i);
  }

  // ---------------------------------------------------------------------------------------------
  // Progress
  // ---------------------------------------------------------------------------------------------

  /** Steps that may still come. */
  function Measure(s: State): nat {
    (match s.worker
     case CreatingPort => 18
     case GettingSource => 17
     case AddingArrival => 16
     case AddingRemoval => 15
     case Unwinding(todo) => 10 + |todo|
     case Sending(_) => 9
     case Starting => 8
     case Running => 7
     case TearingDown(todo) => 1 + |todo|
     case Exited => 0)
    + match s.owner
      case Receiving => 3
      case JoiningFailed => 1
      case Failed => 0
      case Registered => 2
      case JoiningStopped => 1
      case Dropped => 0
  }

  lemma SetupDecreases(s: State, t: State)
    requires SetupStep(s, t)
    ensures Measure(t) < Measure(s)
  {
  }

  lemma NextDecreases(s: State, t: State)
    requires Next(s, t)
    ensures Measure(t) < Measure(s)
  {
    if SetupStep(s, t) {
      SetupDecreases(s, t);
    }
  }

  /** No run takes more than 21 steps. */
  lemma {:induction false} RunLength(run: seq<State>)
    requires IsRun(run)
    ensures |run| + Measure(run[|run| - 1]) <= 22
    decreases |run|
  {
    if 1 < |run| {
      var n := |run| - 1;
      forall i: nat | i + 1 < n ensures StepAt(run[..n], i) {
        assert StepAt(run, i);
      }
      RunLength(run[..n]);
      assert StepAt(run, n - 1);
      NextDecreases(run[n - 1], run[n]);
    }
  }

  /** No thread can make a step. */
  ghost predicate Quiet(s: State) {
    forall t :: !Next(s, t)
  }

  /** The join waits for a run loop whose stop request was lost. */
  predicate Hangs(s: State) {
    s.owner == JoiningStopped && s.worker == Running && s.stop == Lost
  }

  lemma Progress(s: State) returns (t: State)
    requires Inv(s) && s.owner !in {Failed, Dropped} && !Hangs(s)
    ensures Next(s, t)
  {
    match s.worker
    case CreatingPort => t := s.(worker := Sending(Null));
    case GettingSource => t := s.(worker := Unwinding([Port]));
    case AddingArrival => t := s.(worker := Unwinding([ArrivedCtx, Port]));
    case AddingRemoval => t := s.(worker := Unwinding([RemovedCtx, ArrivedCtx, ArrivedIter, Port]));
    case Unwinding(todo) =>
      t := if todo == [] then s.(worker := Sending(Null)) else Free(s, todo[0], Unwinding(todo[1..]));
    case Sending(m) => t := s.(worker := if m == Null then Exited else Starting, sent := s.sent + [m]);
    case Starting => t := s.(worker := Running);
    case TearingDown(todo) =>
      t := if todo == [] then s.(worker := Exited) else Free(s, todo[0], TearingDown(todo[1..]));
    case _ => t := OwnerProgress(s);
  }

  lemma OwnerProgress(s: State) returns (t: State)
    requires Inv(s) && (s.worker == Running || s.worker == Exited) && s.owner !in {Failed, Dropped} && !Hangs(s)
    ensures Next(s, t)
  {
    match s.owner
    case Receiving => t := s.(owner := if s.sent[0] == Null then JoiningFailed else Registered);
    case JoiningFailed => t := s.(owner := Failed);
    case Registered => t := s.(owner := JoiningStopped, stop := Asked);
    case JoiningStopped =>
      t := if s.worker == Exited then s.(owner := Dropped)
           else s.(worker := TearingDown([ArrivedIter, RemovedIter, Port, ArrivedCtx, RemovedCtx]));
  }

  /**
   Every run comes to rest, and exactly in these states: `register` has failed, `drop` has returned, or the
   join hangs because the system lost a stop request made before the run loop ran.
   */
  lemma RestsExactly(run: seq<State>)
    requires IsRun(run)
    ensures |run| <= 22
    ensures var s := run[|run| - 1];
            Quiet(s) <==> s.owner == Failed || s.owner == Dropped || Hangs(s)
  {
    RunLength(run);
    RunKeepsInv(run, |run| - 1);
    var s := run[|run| - 1];
    if s.owner !in {Failed, Dropped} && !Hangs(s) {
      var t := Progress(s);
    }
  }

  lemma StepLoses(s: State, t: State)
    requires Next(s, t) && t.stop == Lost
    ensures s.stop == Lost || (s.worker == Starting && s.stop == Asked)
  {
  }

  /** A lost stop request was made while the run loop was not running yet: an owner that stops the loop later,
      or a system that keeps early requests, is never left hanging. */
  lemma {:induction false} LostOnlyWhenEarly(run: seq<State>, i: nat)
    requires IsRun(run) && i < |run|
    ensures run[i].stop == Lost ==> exists j :: 0 <= j < i && run[j].worker == Starting && run[j].stop == Asked
    decreases i
  {
    if 0 < i && run[i].stop == Lost {
      assert StepAt(run, i - 1);
      StepLoses(run[i - 1], run[i]);
      if run[i - 1].stop == Lost {
        LostOnlyWhenEarly(run, i - 1);
      }
    }
  }

  /** Some run ends in this state. */
  ghost predicate Reached(s: State) {
    exists run :: IsRun(run) && run[|run| - 1] == s
  }

  lemma ReachedNext(s: State, t: State)
    requires Reached(s) && Next(s, t)
    ensures Reached(t)
  {
    var run :| IsRun(run) && run[|run| - 1] == s;
    var longer := run + [t];
    forall i: nat | i + 1 < |longer|
      ensures StepAt(longer, i)
    {
      assert i + 1 < |run| ==> StepAt(run, i);
    }
    assert IsRun(longer) && longer[|longer| - 1] == t;
  }

  lemma ReachedInv(s: State)
    requires Reached(s)
    ensures Inv(s)
  {
    var run :| IsRun(run) && run[|run| - 1] == s;
    RunKeepsInv(run, |run| - 1);
  }

  /** The null message has been sent, or is sent next, when what is held has been given back. */
  predicate Failing(s: State) {
    s.worker.Unwinding? || s.worker == Sending(Null) || s.sent == [Null]
  }

  /** The next call of the setup fails. */
  function Refused(s: State): State
    requires s.worker in {CreatingPort, GettingSource, AddingArrival, AddingRemoval}
  {
    s.(worker := match s.worker
                 case CreatingPort => Sending(Null)
                 case GettingSource => Unwinding([Port])
                 case AddingArrival => Unwinding([ArrivedCtx, Port])
                 case _ => Unwinding([RemovedCtx, ArrivedCtx, ArrivedIter, Port]))
  }

  lemma {:induction false} FailingFails(s: State) returns (t: State)
    requires Reached(s) && Failing(s)
    ensures Reached(t) && t.owner == Failed
    decreases Measure(s)
  {
    ReachedInv(s);
    if s.owner == Failed {
      t := s;
    } else {
      var u := if s.worker.Unwinding? then
                 if s.worker.todo == [] then s.(worker := Sending(Null))
                 else Free(s, s.worker.todo[0], Unwinding(s.worker.todo[1..]))
               else if s.worker == Sending(Null) then s.(worker := Exited, sent := s.sent + [Null])
               else s.(owner := if s.owner == Receiving then JoiningFailed else Failed);
      assert s.sent == [Null] ==> s.worker == Exited && OwnerStep(s, u);
      assert s.sent != [Null] ==> SetupStep(s, u);
      NextDecreases(s, u);
      ReachedNext(s, u);
      t := FailingFails(u);
    }
  }

  /** Any call of the setup may fail, and `register` then returns its error. */
  lemma RegisterMayFail(s: State) returns (t: State)
    requires Reached(s) && s.worker in {CreatingPort, GettingSource, AddingArrival, AddingRemoval}
    ensures Reached(t) && t.owner == Failed
  {
    assert SetupStep(s, Refused(s));
    ReachedNext(s, Refused(s));
    t := FailingFails(Refused(s));
  }

  /** Where the owner has a registration, or waits for the worker it has stopped, `drop` may return, unless the
      request was lost. */
  lemma {:induction false} DropMayReturn(s: State) returns (t: State)
    requires Reached(s) && s.owner in {Registered, JoiningStopped, Dropped} && s.stop != Lost
    ensures Reached(t) && t.owner == Dropped
    decreases Measure(s)
  {
    ReachedInv(s);
    if s.owner == Dropped {
      t := s;
    } else {
      var u := if s.owner == Registered then s.(owner := JoiningStopped, stop := Asked)
               else if s.worker == Exited then s.(owner := Dropped)
               else if s.worker == Starting then s.(worker := Running)
               else if s.worker == Running then
                 s.(worker := TearingDown([ArrivedIter, RemovedIter, Port, ArrivedCtx, RemovedCtx]))
               else if s.worker.todo == [] then s.(worker := Exited)
               else Free(s, s.worker.todo[0], TearingDown(s.worker.todo[1..]));
      assert OwnerStep(s, u) || LoopStep(s, u);
      NextDecreases(s, u);
      ReachedNext(s, u);
      t := DropMayReturn(u);
    }
  }

  /** A stop request stands although the worker has not entered its run loop. */
  predicate Early(s: State) {
    s.worker == Starting && s.stop == Asked
  }

  ghost predicate KeptAt(run: seq<State>, i: nat)
    requires i + 1 < |run|
  {
    Early(run[i]) ==> run[i + 1].stop != Lost
  }

  ghost predicate LostAt(run: seq<State>, i: nat)
    requires i + 1 < |run|
  {
    Early(run[i]) && run[i + 1].worker == Running ==> run[i + 1].stop == Lost
  }

  /** A system that keeps early requests, and one that loses them. */
  ghost predicate KeepsEarly(run: seq<State>) {
    forall i: nat :: i + 1 < |run| ==> KeptAt(run, i)
  }

  ghost predicate LosesEarly(run: seq<State>) {
    forall i: nat :: i + 1 < |run| ==> LostAt(run, i)
  }

  /** On a system that keeps early requests no request is lost, and no join hangs. */
  lemma {:induction false} KeptRunsNeverHang(run: seq<State>, i: nat)
    requires IsRun(run) && i < |run|
    ensures KeepsEarly(run) ==> run[i].stop != Lost && !Hangs(run[i])
    decreases i
  {
    if 0 < i && KeepsEarly(run) {
      KeptRunsNeverHang(run, i - 1);
      assert StepAt(run, i - 1) && KeptAt(run, i - 1);
      if run[i].stop == Lost {
        StepLoses(run[i - 1], run[i]);
      }
    }
  }

  /** What an early request leads to on a system that loses it: the worker is before or in its loop for good. */
  predicate Doomed(s: State) {
    Early(s) || (s.worker == Running && s.stop == Lost)
  }

  lemma StepStaysDoomed(s: State, t: State)
    requires Inv(s) && Doomed(s) && Next(s, t)
    ensures Doomed(t) || (Early(s) && t.worker == Running && t.stop != Lost)
  {
  }

  lemma RunStaysDoomed(run: seq<State>, k: nat)
    requires IsRun(run) && LosesEarly(run) && k + 1 < |run| && Doomed(run[k])
    ensures Doomed(run[k + 1])
  {
    RunKeepsInv(run, k);
    assert StepAt(run, k) && LostAt(run, k);
    StepStaysDoomed(run[k], run[k + 1]);
  }

  lemma {:induction false} DoomedForGood(run: seq<State>, i: nat, j: nat)
    requires IsRun(run) && LosesEarly(run) && i <= j < |run| && Early(run[i])
    ensures Doomed(run[j])
    decreases j
  {
    if i < j {
      DoomedForGood(run, i, j - 1);
      RunStaysDoomed(run, j - 1);
    }
  }

  /**
   On a system that loses early requests, a run that has come to rest hangs if and only if the drop asked the
   run loop to stop before the worker had entered it.
   */
  lemma HangsExactlyWhenDroppedEarly(run: seq<State>)
    requires IsRun(run)
    ensures LosesEarly(run) && Quiet(run[|run| - 1]) ==>
              (Hangs(run[|run| - 1]) <==> exists i :: 0 <= i < |run| && Early(run[i]))
  {
    var n := |run| - 1;
    if LosesEarly(run) && Quiet(run[n]) {
      RestsExactly(run);
      LostOnlyWhenEarly(run, n);
      if i :| 0 <= i < |run| && Early(run[i]) {
        DoomedForGood(run, i, n);
        RunKeepsInv(run, n);
      }
    }
  }

  /** And then it may hang: a registration that succeeds and is dropped before the run loop runs, on a system
      that does not keep the request. */
  lemma EarlyStopMayHang() returns (run: seq<State>)
    ensures IsRun(run) && Hangs(run[|run| - 1])
  {
    var s0 := State(CreatingPort, Receiving, NotAsked, [], {}, {}, multiset{});
    var s1 := Take(s0, {Port}, GettingSource);
    var s2 := Take(s1, {ArrivedCtx}, AddingArrival);
    var s3 := Take(s2, {ArrivedIter, RemovedCtx}, AddingRemoval);
    var s4 := Take(s3, {RemovedIter}, Sending(RunLoop));
    var s5 := s4.(worker := Starting, sent := [RunLoop]);
    var s6 := s5.(owner := Registered);
    var s7 := s6.(owner := JoiningStopped, stop := Asked);
    var s8 := s7.(worker := Running, stop := Lost);
    assert SetupStep(s0, s1) && SetupStep(s1, s2) && SetupStep(s2, s3) && SetupStep(s3, s4);
    assert SetupStep(s4, s5) && OwnerStep(s5, s6) && OwnerStep(s6, s7) && LoopStep(s7, s8);
    run := [s0, s1, s2, s3, s4, s5, s6, s7, s8];
  }
}
