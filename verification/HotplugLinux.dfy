/**
 The hotplug worker on Linux and the drop of its handle: two threads and the kernel that queues
 device events, interleaved in any order, one shared access or system call a step.
 */
module HotplugLinux {
  import opened UsbBase

  datatype Kind = Add | Remove | OtherKind
  datatype Event = Event(kind: Kind, path: string)
  datatype Callback = DeviceArrived(path: string) | DeviceLeft(path: string)

  /** What the worker does next. */
  datatype Worker = Checking | Polling | Draining | Exited

  /** The thread that owns the handle: before, inside and after `drop`. */
  datatype Owner = Holding | Joining | Dropped

  datatype State = State(
    queue: seq<Event>,        // events the kernel holds for the monitor
    consumed: seq<Event>,     // events the worker has taken, in order
    delivered: seq<Callback>,
    worker: Worker,
    owner: Owner,
    stop: bool)

  datatype Actor = KernelActs | WorkerActs | OwnerActs

  /** The callbacks after one more event was taken. */
  function Noted(calls: seq<Callback>, e: Event): seq<Callback> {
    match e.kind
    case Add => calls + [DeviceArrived(e.path)]
    case Remove => calls + [DeviceLeft(e.path)]
    case OtherKind => calls
  }

  /** The callbacks a list of events leads to. */
  function Translate(es: seq<Event>): seq<Callback> {
    if es == [] then [] else Noted(Translate(es[..|es| - 1]), es[|es| - 1])
  }

  ghost predicate Init(s: State) {
    s.consumed == [] && s.delivered == [] && s.worker == Checking && s.owner == Holding && !s.stop
  }

  ghost predicate KernelStep(s: State, t: State) {
    exists e :: t == s.(queue := s.queue + [e])
  }

  /** The loop condition reads the flag. */
  ghost predicate CheckStop(s: State, t: State) {
    s.worker == Checking && t == s.(worker := if s.stop then Exited else Polling)
  }

  /** `poll` times out, fails or reports no input; or it reports input, possibly without an event. */
  ghost predicate Poll(s: State, t: State) {
    s.worker == Polling && (t == s.(worker := Checking) || t == s.(worker := Draining))
  }

  /** The inner loop takes one event and calls back, or finds none and ends. */
  ghost predicate TakeEvent(s: State, t: State) {
    && s.worker == Draining
    && if s.queue == [] then t == s.(worker := Checking)
       else
         var e := s.queue[0];
         t == s.(
           queue := s.queue[1..],
           consumed := s.consumed + [e],
           delivered := Noted(s.delivered, e))
  }

  ghost predicate WorkerStep(s: State, t: State) {
    CheckStop(s, t) || Poll(s, t) || TakeEvent(s, t)
  }

  /** `drop` raises the flag, then returns once the worker has been joined. */
  ghost predicate OwnerStep(s: State, t: State) {
    || (s.owner == Holding && t == s.(owner := Joining, stop := true))
    || (s.owner == Joining && s.worker == Exited && t == s.(owner := Dropped))
  }

  ghost predicate Next(s: State, a: Actor, t: State) {
    match a
    case KernelActs => KernelStep(s, t)
    case WorkerActs => WorkerStep(s, t)
    case OwnerActs => OwnerStep(s, t)
  }

  /** One step of a run: who acts, and the state it leads to. */
  datatype Move = Move(actor: Actor, after: State)

  ghost predicate Run(s: State, moves: seq<Move>, t: State)
    decreases |moves|
  {
    if moves == [] then t == s
    else Next(s, moves[0].actor, moves[0].after) && Run(moves[0].after, moves[1..], t)
  }

  /** The events the kernel appended along a run, in order. */
  function Arrived(moves: seq<Move>): seq<Event> {
    if moves == [] then []
    else
      var q := moves[0].after.queue;
      (if moves[0].actor == KernelActs && q != [] then [q[|q| - 1]] else []) + Arrived(moves[1..])
  }

  function CountOf(moves: seq<Move>, a: Actor): nat {
    if moves == [] then 0 else (if moves[0].actor == a then 1 else 0) + CountOf(moves[1..], a)
  }

  ghost predicate Inv(s: State) {
    && s.delivered == Translate(s.consumed)
    && (s.stop <==> s.owner != Holding)
    && (s.worker == Exited ==> s.stop)
    && (s.owner == Dropped ==> s.worker == Exited)
  }

  lemma TranslateSnoc(es: seq<Event>, e: Event)
    ensures Translate(es + [e]) == Noted(Translate(es), e)
  {
    assert (es + [e])[..|es|] == es;
  }

  lemma TakeKeepsCalls(s: State, t: State)
    requires s.delivered == Translate(s.consumed) && TakeEvent(s, t)
    ensures t.delivered == Translate(t.consumed)
    ensures t.owner == s.owner && t.stop == s.stop
  {
    if s.queue != [] {
      TranslateSnoc(s.consumed, s.queue[0]);
    }
  }

  lemma NextKeepsInv(s: State, a: Actor, t: State)
    requires Inv(s) && Next(s, a, t)
    ensures Inv(t)
    ensures s.owner == Dropped ==> t.owner == Dropped && t.consumed == s.consumed && t.delivered == s.delivered
  {
    if a == WorkerActs && TakeEvent(s, t) {
      TakeKeepsCalls(s, t);
    } else {
      assert t.consumed == s.consumed && t.delivered == s.delivered;
    }
  }

  /** Only the kernel adds events, one at the end; no step loses or reorders any. */
  lemma NextKeepsEvents(s: State, a: Actor, t: State)
    requires Next(s, a, t)
    ensures t.consumed + t.queue == s.consumed + s.queue + Arrived([Move(a, t)])
  {
    assert Arrived([Move(a, t)]) == if a == KernelActs && t.queue != [] then [t.queue[|t.queue| - 1]] else [];
    if a == WorkerActs && s.worker == Draining && s.queue != [] {
      assert s.queue == [s.queue[0]] + s.queue[1..];
    }
  }

  lemma {:induction false} RunKeepsInv(s: State, moves: seq<Move>, t: State)
    requires Inv(s) && Run(s, moves, t)
    ensures Inv(t)
    ensures s.owner == Dropped ==> t.owner == Dropped && t.consumed == s.consumed && t.delivered == s.delivered
    decreases |moves|
  {
    if moves != [] {
      NextKeepsInv(s, moves[0].actor, moves[0].after);
      RunKeepsInv(moves[0].after, moves[1..], t);
    }
  }

  lemma ArrivedHead(moves: seq<Move>)
    requires moves != []
    ensures Arrived(moves) == Arrived([Move(moves[0].actor, moves[0].after)]) + Arrived(moves[1..])
  {
    assert [moves[0]][1..] == [];
  }

  lemma {:induction false} RunKeepsEvents(s: State, moves: seq<Move>, t: State)
    requires Run(s, moves, t)
    ensures t.consumed + t.queue == s.consumed + s.queue + Arrived(moves)
    decreases |moves|
  {
    if moves != [] {
      var u := moves[0].after;
      var first, rest := Arrived([Move(moves[0].actor, u)]), Arrived(moves[1..]);
      NextKeepsEvents(s, moves[0].actor, u);
      RunKeepsEvents(u, moves[1..], t);
      ArrivedHead(moves);
      ConcatAssociative(s.consumed + s.queue, first, rest);
    }
  }

  /**
   Delivery. On every run the callbacks made are exactly the arrival and removal events of a prefix of
   all events, those queued at the start and those the kernel appended, in order and once each; what
   is not delivered yet is still queued.
   */
  lemma DeliveredInOrderOnce(s: State, moves: seq<Move>, t: State)
    requires Init(s) && Run(s, moves, t)
    ensures t.consumed + t.queue == s.queue + Arrived(moves)
    ensures t.delivered == Translate(t.consumed)
  {
    RunKeepsInv(s, moves, t);
    RunKeepsEvents(s, moves, t);
    assert s.consumed + s.queue == s.queue;
  }

  /** The events that are additions or removals. */
  function Reported(es: seq<Event>): seq<Event> {
    if es == [] then []
    else Reported(es[..|es| - 1]) + if es[|es| - 1].kind == OtherKind then [] else [es[|es| - 1]]
  }

  /** The callback tells of this event: an arrival of an addition, a departure of a removal, with its path. */
  predicate TellsOf(call: Callback, e: Event) {
    && (e.kind == Add <==> call == DeviceArrived(e.path))
    && (e.kind == Remove <==> call == DeviceLeft(e.path))
    && e.kind != OtherKind
  }

  ghost predicate AllTold(calls: seq<Callback>, es: seq<Event>) {
    |calls| == |es| && forall i :: 0 <= i < |es| ==> TellsOf(calls[i], es[i])
  }

  lemma {:induction false} TranslationTells(es: seq<Event>)
    ensures AllTold(Translate(es), Reported(es))
    decreases |es|
  {
    if es != [] {
      TranslationTells(es[..|es| - 1]);
    }
  }

  /** Every callback tells of its event: as many callbacks as additions and removals consumed, and for each the
      one that belongs to its kind, with its path. */
  lemma CallbacksTellTheEvents(s: State, moves: seq<Move>, t: State)
    requires Init(s) && Run(s, moves, t)
    ensures AllTold(t.delivered, Reported(t.consumed))
  {
    DeliveredInOrderOnce(s, moves, t);
    TranslationTells(t.consumed);
  }

  /** Once the worker has begun to take events, it does not stop before it has taken all that were queued then,
      even if the flag goes up meanwhile. */
  lemma {:induction false} BatchIsFinished(s: State, moves: seq<Move>, t: State)
    requires Run(s, moves, t) && s.worker == Draining && t.worker != Draining
    ensures s.consumed + s.queue <= t.consumed
    decreases |moves|
  {
    var u := moves[0].after;
    NextKeepsEvents(s, moves[0].actor, u);
    if u.worker == Draining {
      BatchIsFinished(u, moves[1..], t);
      BatchGrows(s, moves[0].actor, u);
    } else {
      assert s.queue == [];
      RunConsumes(u, moves[1..], t);
    }
  }

  lemma BatchGrows(s: State, a: Actor, u: State)
    requires Next(s, a, u) && s.worker == u.worker == Draining
    ensures s.consumed + s.queue <= u.consumed + u.queue
  {
    if a == WorkerActs {
      assert s.queue == [s.queue[0]] + s.queue[1..];
    }
  }

  /** What has been consumed stays so. */
  lemma {:induction false} RunConsumes(s: State, moves: seq<Move>, t: State)
    requires Run(s, moves, t)
    ensures s.consumed <= t.consumed
    decreases |moves|
  {
    if moves != [] {
      RunConsumes(moves[0].after, moves[1..], t);
    }
  }

  /** While the flag is down the worker can always get to deliver everything that is queued. */
  lemma {:induction false} QueueCanBeDelivered(s: State) returns (moves: seq<Move>, t: State)
    requires !s.stop && s.worker != Exited
    ensures Run(s, moves, t) && CountOf(moves, WorkerActs) == |moves|
    ensures t.queue == [] && t.consumed == s.consumed + s.queue
    decreases |s.queue|, match s.worker { case Checking => 2 case Polling => 1 case _ => 0 }
  {
    if s.queue == [] {
      moves, t := [], s;
    } else {
      var u := if s.worker == Checking then s.(worker := Polling)
               else if s.worker == Polling then s.(worker := Draining)
               else s.(queue := s.queue[1..], consumed := s.consumed + [s.queue[0]],
                       delivered := Noted(s.delivered, s.queue[0]));
      assert WorkerStep(s, u);
      assert u.consumed + u.queue == s.consumed + s.queue by {
        assert s.queue == [s.queue[0]] + s.queue[1..];
      }
      var rest;
      rest, t := QueueCanBeDelivered(u);
      moves := [Move(WorkerActs, u)] + rest;
      assert moves[1..] == rest;
    }
  }

  /** No callback once `drop` has returned, whatever happens afterwards; and `drop` has only returned
      after the worker exited. */
  lemma SilentAfterDrop(s: State, before: seq<Move>, mid: State, after: seq<Move>, t: State)
    requires Init(s) && Run(s, before, mid) && mid.owner == Dropped && Run(mid, after, t)
    ensures mid.worker == Exited && t.delivered == mid.delivered
  {
    RunKeepsInv(s, before, mid);
    RunKeepsInv(mid, after, t);
  }

  // ---------------------------------------------------------------------------------------------
  // The worker comes to an end
  // ---------------------------------------------------------------------------------------------

  /** Worker steps left once the flag is up and nothing more arrives. */
  function Measure(s: State): nat {
    |s.queue| + match s.worker { case Exited => 0 case Checking => 1 case Draining => 2 case Polling => 3 }
  }

  /** With the flag up, a worker step brings the exit nearer, and only the kernel puts it off. */
  lemma NextMeasure(s: State, a: Actor, t: State)
    requires s.stop && Next(s, a, t)
    ensures t.stop
    ensures a == WorkerActs ==> Measure(t) < Measure(s)
    ensures a == OwnerActs ==> Measure(t) <= Measure(s)
    ensures a == KernelActs ==> Measure(t) == Measure(s) + 1
  {
  }

  /** Until it has exited, the worker always has a step to take. */
  lemma WorkerNeverBlocks(s: State) returns (t: State)
    requires s.worker != Exited
    ensures WorkerStep(s, t)
  {
    match s.worker
    case Checking => t := s.(worker := if s.stop then Exited else Polling);
    case Polling => t := s.(worker := Checking);
    case Draining =>
      if s.queue == [] {
        t := s.(worker := Checking);
      } else {
        var e := s.queue[0];
        t := s.(
          queue := s.queue[1..],
          consumed := s.consumed + [e],
          delivered := Noted(s.delivered, e));
      }
  }

  /** Behind the moment the flag is up, the worker can take at most as many steps as events are queued
      or still arrive, plus three. */
  lemma {:induction false} StopBoundsTheWorker(s: State, moves: seq<Move>, t: State)
    requires s.stop && Run(s, moves, t)
    ensures t.stop
    ensures CountOf(moves, WorkerActs) + Measure(t) <= Measure(s) + CountOf(moves, KernelActs)
    decreases |moves|
  {
    if moves != [] {
      NextMeasure(s, moves[0].actor, moves[0].after);
      StopBoundsTheWorker(moves[0].after, moves[1..], t);
    }
  }

  /** From every state with the flag up the worker gets to its exit alone, within the measure. */
  lemma {:induction false} WorkerReachesExit(s: State) returns (moves: seq<Move>, t: State)
    requires s.stop
    ensures Run(s, moves, t) && CountOf(moves, WorkerActs) == |moves| <= Measure(s)
    ensures t.worker == Exited && t.owner == s.owner && t.stop
    decreases Measure(s)
  {
    if s.worker == Exited {
      moves, t := [], s;
    } else {
      var u := WorkerNeverBlocks(s);
      NextMeasure(s, WorkerActs, u);
      var rest;
      rest, t := WorkerReachesExit(u);
      moves := [Move(WorkerActs, u)] + rest;
      assert moves[1..] == rest;
    }
  }

  lemma {:induction false} RunSnoc(s: State, moves: seq<Move>, t: State, a: Actor, u: State)
    requires Run(s, moves, t) && Next(t, a, u)
    ensures Run(s, moves + [Move(a, u)], u)
    ensures forall b :: CountOf(moves + [Move(a, u)], b) == CountOf(moves, b) + if a == b then 1 else 0
    decreases |moves|
  {
    var more := moves + [Move(a, u)];
    if moves == [] {
      assert more[1..] == [] && Run(u, [], u);
    } else {
      RunSnoc(moves[0].after, moves[1..], t, a, u);
      assert more[1..] == moves[1..] + [Move(a, u)];
    }
  }

  /** The join comes to an end: wherever the flag went up, the worker exits and `drop` returns without any
      help of the kernel, after at most as many moves as the measure says and the join itself. */
  lemma DropGetsThrough(s: State) returns (moves: seq<Move>, t: State)
    requires s.stop && s.owner == Joining
    ensures Run(s, moves, t) && t.owner == Dropped
    ensures CountOf(moves, WorkerActs) <= Measure(s) && CountOf(moves, OwnerActs) == 1
    ensures CountOf(moves, KernelActs) == 0
  {
    var own, u := WorkerReachesExit(s);
    assert CountOf(own, OwnerActs) == CountOf(own, KernelActs) == 0 by {
      CountsAddUp(own);
    }
    t := u.(owner := Dropped);
    moves := own + [Move(OwnerActs, t)];
    RunSnoc(s, own, u, OwnerActs, t);
  }

  lemma {:induction false} CountsAddUp(moves: seq<Move>)
    ensures CountOf(moves, WorkerActs) + CountOf(moves, OwnerActs) + CountOf(moves, KernelActs) == |moves|
  {
    if moves != [] {
      CountsAddUp(moves[1..]);
    }
  }

  /** Neither the worker nor the owner can make a move. */
  ghost predicate Quiet(s: State) {
    forall t :: !WorkerStep(s, t) && !OwnerStep(s, t)
  }

  /** Every run that worker and owner cannot continue has ended with `drop` having returned, and only such
      runs: there is no deadlock, in particular none in the join. */
  lemma QuietExactlyWhenDropped(s: State, moves: seq<Move>, t: State)
    requires Init(s) && Run(s, moves, t)
    ensures Quiet(t) <==> t.owner == Dropped
  {
    RunKeepsInv(s, moves, t);
    if t.worker != Exited {
      var u := WorkerNeverBlocks(t);
    } else if t.owner == Joining {
      assert OwnerStep(t, t.(owner := Dropped));
    }
  }

  /** After the flag went up the owner moves at most once, and the worker within its bound: with finitely many
      arrivals, every run reaches a state that worker and owner cannot continue. */
  lemma {:induction false} JoinIsBounded(s: State, moves: seq<Move>, t: State)
    requires s.stop && s.owner != Holding && Run(s, moves, t)
    ensures CountOf(moves, WorkerActs) + CountOf(moves, OwnerActs) <= Measure(s) + 1 + CountOf(moves, KernelActs)
    ensures s.owner == Dropped ==> CountOf(moves, OwnerActs) == 0
    decreases |moves|
  {
    if moves != [] {
      var u := moves[0].after;
      NextMeasure(s, moves[0].actor, u);
      StopBoundsTheWorker(u, moves[1..], t);
      JoinIsBounded(u, moves[1..], t);
    }
  }
}
