/**
 Overlapped I/O: one request shared between the thread that runs `overlapped_read` or
 `overlapped_write` and the kernel, which may complete the request at any moment.

 Every system call of the thread is one step, and so is the completion by the kernel; a run is any
 interleaving. The kernel's promises are written into the steps: the event is signalled only by a
 completion, and `CancelIoEx` fails only when nothing is outstanding.
 */
module Overlapped {
  import opened UsbBase

  datatype Status = Success | Aborted | Failed(code: int)

  /** The request as the kernel sees it. While it is pending, the kernel may write to the OVERLAPPED
      structure and to the caller's buffer. */
  datatype Request = Idle | Pending | Complete(status: Status, count: nat)

  /** What the caller gets. The first two come from the system, the last two from this code. */
  datatype Outcome = Bytes(n: nat) | SystemError(code: int) | CancelRefused | TimedOut

  /** Where the thread is: the call it makes next. */
  datatype Location =
    | AtCreateEvent
    | AtSubmit
    | AtWait
    | AtResult
    | AtCancel
    | AtDrain
    | AtCloseEvent(pending: Outcome)
    | Returned(outcome: Outcome)

  datatype WaitResult = Signalled | Elapsed | WaitFailed

  datatype State = State(
    at: Location,
    request: Request,
    eventOpen: bool,
    timeout: nat,                // in nanoseconds, as the caller gave it
    waited: Option<WaitResult>,  // what the wait reported
    cancelled: Option<bool>)     // whether CancelIoEx succeeded

  const INFINITE: nat := 0xFFFF_FFFF

  /** ERROR_OPERATION_ABORTED, the error of a cancelled request. */
  const ABORTED: int := 995

  /** The argument of the wait: whole milliseconds, cut to 32 bits, with zero replaced by INFINITE. */
  function WaitMillis(timeout: nat): nat {
    var ms := Min(timeout / 1_000_000, 0xFFFF_FFFF);
    if ms == 0 then INFINITE else ms
  }

  /** A timeout under a millisecond waits for ever, and so does one of 2^32 - 1 milliseconds or more; any other
      waits its whole milliseconds. */
  lemma WaitsForeverExactly(timeout: nat)
    ensures WaitMillis(timeout) == INFINITE <==>
            timeout < 1_000_000 || 0xFFFF_FFFF * 1_000_000 <= timeout
    ensures WaitMillis(timeout) != INFINITE ==>
            WaitMillis(timeout) * 1_000_000 <= timeout < (WaitMillis(timeout) + 1) * 1_000_000
  {
  }

  ghost predicate Init(s: State) {
    s.at == AtCreateEvent && s.request == Idle && !s.eventOpen && s.waited == None && s.cancelled == None
  }

  ghost predicate CreateEvent(s: State, t: State) {
    && s.at == AtCreateEvent
    && (|| t == s.(at := AtSubmit, eventOpen := true)
        || exists code :: t == s.(at := Returned(SystemError(code))))
  }

  /** `WinUsb_ReadPipe` / `WinUsb_WritePipe`: done at once, pending, or refused. */
  ghost predicate Submit(s: State, t: State) {
    && s.at == AtSubmit
    && (|| (exists n :: t == s.(at := AtCloseEvent(Bytes(n)), request := Complete(Success, n)))
        || t == s.(at := AtWait, request := Pending)
        || (exists code :: t == s.(at := AtCloseEvent(SystemError(code)))))
  }

  /** `WaitForSingleObject`: signalled only when complete; a finite wait may elapse, and any wait may
      fail, which the code treats alike. */
  ghost predicate Wait(s: State, t: State) {
    && s.at == AtWait
    && (|| (s.request.Complete? && t == s.(at := AtResult, waited := Some(Signalled)))
        || (WaitMillis(s.timeout) != INFINITE && t == s.(at := AtCancel, waited := Some(Elapsed)))
        || t == s.(at := AtCancel, waited := Some(WaitFailed)))
  }

  /** `GetOverlappedResult` without waiting, after the signal; its `?` returns at once. */
  ghost predicate GetResult(s: State, t: State) {
    && s.at == AtResult && s.request.Complete?
    && match s.request.status
       case Success => t == s.(at := AtCloseEvent(Bytes(s.request.count)))
       case Aborted => t == s.(at := Returned(SystemError(ABORTED)))
       case Failed(code) => t == s.(at := Returned(SystemError(code)))
  }

  /** `CancelIoEx`; its `?` returns at once. */
  ghost predicate Cancel(s: State, t: State) {
    && s.at == AtCancel
    && (|| t == s.(at := AtDrain, cancelled := Some(true))
        || (!s.request.Pending? && t == s.(at := Returned(CancelRefused), cancelled := Some(false))))
  }

  /** `GetOverlappedResult` with waiting: blocks until the request is complete. */
  ghost predicate Drain(s: State, t: State) {
    && s.at == AtDrain && s.request.Complete?
    && match s.request.status
       case Success => t == s.(at := AtCloseEvent(TimedOut))
       case Aborted => t == s.(at := AtCloseEvent(TimedOut))
       case Failed(code) => t == s.(at := Returned(SystemError(code)))
  }

  ghost predicate CloseEvent(s: State, t: State) {
    s.at.AtCloseEvent? && t == s.(at := Returned(s.at.pending), eventOpen := false)
  }

  ghost predicate ThreadStep(s: State, t: State) {
    || CreateEvent(s, t) || Submit(s, t) || Wait(s, t) || GetResult(s, t)
    || Cancel(s, t) || Drain(s, t) || CloseEvent(s, t)
  }

  /** The kernel finishes the request, with any status and count. */
  ghost predicate KernelStep(s: State, t: State) {
    s.request.Pending? && exists status, n :: t == s.(request := Complete(status, n))
  }

  ghost predicate Next(s: State, t: State) {
    ThreadStep(s, t) || KernelStep(s, t)
  }

  ghost predicate StepAt(run: seq<State>, i: nat)
    requires i + 1 < |run|
  {
    Next(run[i], run[i + 1])
  }

  ghost predicate IsRun(run: seq<State>) {
    && run != [] && Init(run[0])
    && forall i: nat :: i + 1 < |run| ==> StepAt(run, i)
  }

  /** The front of a run is a run. */
  lemma FrontOfRun(run: seq<State>, n: nat)
    requires IsRun(run) && 0 < n <= |run|
    ensures IsRun(run[..n])
  {
    forall i: nat | i + 1 < n
      ensures StepAt(run[..n], i)
    {
      assert StepAt(run, i);
    }
  }

  // ---------------------------------------------------------------------------------------------
  // Safety
  // ---------------------------------------------------------------------------------------------

  /** The wait ended without the signal; an infinite wait only does so by failing. */
  ghost predicate GaveUp(s: State) {
    s.waited == Some(WaitFailed) || (s.waited == Some(Elapsed) && WaitMillis(s.timeout) != INFINITE)
  }

  /** The error code of a request that did not succeed. */
  function CodeOf(status: Status): int
    requires status != Success
  {
    if status.Failed? then status.code else ABORTED
  }

  /** How each outcome came about, in terms of what the system reported. */
  ghost predicate Explains(s: State, o: Outcome) {
    match o
    case Bytes(n) =>
      s.request == Complete(Success, n) && (s.waited == None || s.waited == Some(Signalled)) && s.cancelled == None
    case TimedOut =>
      GaveUp(s) && s.cancelled == Some(true) && s.request.Complete? && !s.request.status.Failed?
    case CancelRefused => GaveUp(s) && s.cancelled == Some(false) && s.request.Complete?
    case SystemError(code) =>
      || (s.waited == None && s.cancelled == None && s.request == Idle)
      || (s.waited == Some(Signalled) && s.cancelled == None && s.request.Complete? && s.request.status != Success
          && code == CodeOf(s.request.status))
      || (GaveUp(s) && s.cancelled == Some(true) && s.request.Complete? && s.request.status.Failed?
          && code == s.request.status.code)
  }

  /** The exits through `?`: after the request had been pending, with an error of a system call. */
  ghost predicate QuickExit(s: State, o: Outcome) {
    s.waited.Some? && (o.SystemError? || o.CancelRefused?)
  }

  ghost predicate Inv(s: State) {
    match s.at
    case AtCreateEvent => s.request == Idle && s.waited == None && s.cancelled == None && !s.eventOpen
    case AtSubmit => s.request == Idle && s.waited == None && s.cancelled == None && s.eventOpen
    case AtWait => !s.request.Idle? && s.waited == None && s.cancelled == None && s.eventOpen
    case AtResult => s.request.Complete? && s.waited == Some(Signalled) && s.cancelled == None && s.eventOpen
    case AtCancel => !s.request.Idle? && GaveUp(s) && s.cancelled == None && s.eventOpen
    case AtDrain => !s.request.Idle? && GaveUp(s) && s.cancelled == Some(true) && s.eventOpen
    case AtCloseEvent(o) => Explains(s, o) && s.eventOpen && !QuickExit(s, o)
    case Returned(o) => Explains(s, o) && (s.eventOpen <==> QuickExit(s, o))
  }

  lemma NextKeepsInv(s: State, t: State)
    requires Inv(s) && Next(s, t)
    ensures Inv(t)
  {
  }

  lemma {:induction false} RunKeepsInv(run: seq<State>)
    requires IsRun(run)
    ensures forall i :: 0 <= i < |run| ==> Inv(run[i])
    decreases |run|
  {
    if 1 < |run| {
      var n := |run| - 1;
      FrontOfRun(run, n);
      RunKeepsInv(run[..n]);
      assert run[..n][n - 1] == run[n - 1] && StepAt(run, n - 1);
      NextKeepsInv(run[n - 1], run[n]);
      assert forall i :: 0 <= i < n ==> run[i] == run[..n][i];
    }
  }

  /** What the system reported on the exits through `?`: a result query that fails after the signal, a
      refused cancellation, or a drain that fails. */
  ghost predicate ReportsFailure(s: State) {
    || (s.waited == Some(Signalled) && s.request.Complete? && s.request.status != Success)
    || s.cancelled == Some(false)
    || (s.cancelled == Some(true) && s.request.Complete? && s.request.status.Failed?)
  }

  /**
   Safety. On every run, when the call has returned the kernel no longer touches the OVERLAPPED or
   the buffer, then or later, for the run is over; a byte count is the kernel's own; a synthesised
   timeout follows a wait that did not report the signal; and the event is left open exactly when the
   system reported a failure on one of the exits through `?`.
   */
  lemma ReturnedIsSafe(run: seq<State>, i: nat)
    requires IsRun(run) && i < |run| && run[i].at.Returned?
    ensures var s, o := run[i], run[i].at.outcome;
            && !s.request.Pending?
            && (o.Bytes? ==> s.request == Complete(Success, o.n))
            && (o.TimedOut? ==> GaveUp(s) && s.request.Complete?)
            && (o.CancelRefused? ==> GaveUp(s) && s.request.Complete?)
            && (o.SystemError? && s.request.Complete? ==>
                  s.request.status != Success && o.code == CodeOf(s.request.status))
            && (s.eventOpen <==> ReportsFailure(s))
    ensures i == |run| - 1
  {
    RunKeepsInv(run);
    assert i + 1 < |run| ==> StepAt(run, i);
  }

  ghost predicate LeavesEventOpen(run: seq<State>, timeout: nat, o: Outcome) {
    && IsRun(run) && run[0].timeout == timeout
    && run[|run| - 1].at == Returned(o) && run[|run| - 1].eventOpen
  }

  /** The exits through `?` are all reached: whatever the timeout and the error code, a failing result
      query, a refused cancellation and a failing drain each have a run that ends with the event open. */
  lemma EventMayLeak(timeout: nat, code: int) returns (result: seq<State>, cancel: seq<State>, drain: seq<State>)
    ensures LeavesEventOpen(result, timeout, SystemError(code)) && result[|result| - 1].cancelled == None
    ensures LeavesEventOpen(cancel, timeout, CancelRefused)
    ensures LeavesEventOpen(drain, timeout, SystemError(code)) && drain[|drain| - 1].cancelled == Some(true)
  {
    var pending := Submitted(timeout);
    var s := pending[2];
    var failed := s.(request := Complete(Failed(code), 0));
    assert KernelStep(s, failed);
    var signalled := failed.(at := AtResult, waited := Some(Signalled));
    result := pending + [failed, signalled, signalled.(at := Returned(SystemError(code)))];
    var gaveUp := failed.(at := AtCancel, waited := Some(WaitFailed));
    cancel := pending + [failed, gaveUp, gaveUp.(at := Returned(CancelRefused), cancelled := Some(false))];
    var draining := gaveUp.(at := AtDrain, cancelled := Some(true));
    drain := pending + [failed, gaveUp, draining, draining.(at := Returned(SystemError(code)))];
  }

  /** The first three states of a call whose request becomes pending. */
  function Submitted(timeout: nat): (run: seq<State>)
    ensures IsRun(run) && |run| == 3 && run[0].timeout == timeout
    ensures run[2] == State(AtWait, Pending, true, timeout, None, None)
  {
    var s0 := State(AtCreateEvent, Idle, false, timeout, None, None);
    var s1 := s0.(at := AtSubmit, eventOpen := true);
    [s0, s1, s1.(at := AtWait, request := Pending)]
  }

  lemma {:induction false} TimeoutIsConstant(run: seq<State>, i: nat)
    requires IsRun(run) && i < |run|
    ensures run[i].timeout == run[0].timeout
    decreases i
  {
    if 0 < i {
      TimeoutIsConstant(run, i - 1);
      assert StepAt(run, i - 1);
    }
  }

  /** A run with this timeout whose wait reports `w` and that returns a timeout for a transfer the kernel
      had completed with `n` bytes. */
  ghost predicate HidesData(run: seq<State>, timeout: nat, n: nat, w: WaitResult) {
    && IsRun(run) && run[0].timeout == timeout
    && var s := run[|run| - 1];
       s.at == Returned(TimedOut) && s.request == Complete(Success, n) && s.waited == Some(w)
  }

  /** The run behind a wait that ended without the signal: cancelled too late, and drained. */
  lemma TooLate(timeout: nat, n: nat, w: WaitResult) returns (run: seq<State>)
    requires w == WaitFailed || (w == Elapsed && WaitMillis(timeout) != INFINITE)
    ensures HidesData(run, timeout, n, w)
  {
    var pending := Submitted(timeout);
    var s3 := pending[2].(at := AtCancel, waited := Some(w));
    var s4 := s3.(at := AtDrain, cancelled := Some(true));
    var s5 := s4.(request := Complete(Success, n));
    assert KernelStep(s4, s5);
    var s6 := s5.(at := AtCloseEvent(TimedOut));
    run := pending + [s3, s4, s5, s6, s6.(at := Returned(TimedOut), eventOpen := false)];
  }

  /**
   A timeout does not mean that no data moved. A call with this timeout may report one for a transfer of
   `n` bytes after its wait elapsed if and only if the timeout is at least a millisecond and below 2^32 - 1
   of them; after a failing wait it may do so for every timeout, after a signal for none.
   */
  lemma TimeoutHidesDataExactly(timeout: nat, n: nat, w: WaitResult)
    ensures (exists run :: HidesData(run, timeout, n, w)) <==>
            w == WaitFailed || (w == Elapsed && 1_000_000 <= timeout < 0xFFFF_FFFF * 1_000_000)
  {
    WaitsForeverExactly(timeout);
    if w == WaitFailed || (w == Elapsed && WaitMillis(timeout) != INFINITE) {
      var run := TooLate(timeout, n, w);
    }
    forall run | HidesData(run, timeout, n, w)
      ensures w == WaitFailed || (w == Elapsed && WaitMillis(timeout) != INFINITE)
    {
      RunKeepsInv(run);
      TimeoutIsConstant(run, |run| - 1);
    }
  }

  // ---------------------------------------------------------------------------------------------
  // Completeness
  // ---------------------------------------------------------------------------------------------

  lemma Extend(run: seq<State>, t: State) returns (longer: seq<State>)
    requires IsRun(run) && Next(run[|run| - 1], t)
    ensures IsRun(longer) && longer == run + [t] && longer[|longer| - 1] == t
  {
    longer := run + [t];
    forall i: nat | i + 1 < |longer|
      ensures StepAt(longer, i)
    {
      assert i + 1 < |run| ==> StepAt(run, i);
    }
  }

  /** Some run ends in this state. */
  ghost predicate Reached(s: State) {
    exists run :: IsRun(run) && run[|run| - 1] == s
  }

  lemma ReachedNext(s: State, t: State)
    requires Reached(s) && Next(s, t)
    ensures Reached(t)
  {
    var run :| IsRun(run) && run[|run| - 1] == s;
    var longer := Extend(run, t);
  }

  lemma ReachedWaiting(timeout: nat, request: Request)
    requires !request.Idle?
    ensures Reached(State(AtWait, request, true, timeout, None, None))
  {
    var s := State(AtWait, Pending, true, timeout, None, None);
    assert Submitted(timeout)[2] == s;
    assert Reached(s);
    if request.Complete? {
      assert KernelStep(s, s.(request := request));
      ReachedNext(s, s.(request := request));
    }
  }

  lemma ReachedGivingUp(s: State)
    requires s.at == AtCancel && s.request.Complete? && GaveUp(s) && s.cancelled == None && s.eventOpen
    ensures Reached(s)
  {
    var w := State(AtWait, s.request, true, s.timeout, None, None);
    ReachedWaiting(s.timeout, s.request);
    assert s == w.(at := AtCancel, waited := s.waited);
    ReachedNext(w, s);
  }

  lemma ReachedQuick(s: State, o: Outcome)
    requires s.at == Returned(o) && s.waited == None && Explains(s, o) && !s.eventOpen
    ensures Reached(s)
  {
    var start := State(AtCreateEvent, Idle, false, s.timeout, None, None);
    assert IsRun([start]);
    var submit := start.(at := AtSubmit, eventOpen := true);
    ReachedNext(start, submit);
    var closing := submit.(at := AtCloseEvent(o), request := s.request);
    ReachedNext(submit, closing);
    assert s == closing.(at := Returned(o), eventOpen := false);
    ReachedNext(closing, s);
  }

  lemma ReachedSignalled(s: State, o: Outcome)
    requires s.at == Returned(o) && s.waited == Some(Signalled) && Explains(s, o) && (s.eventOpen <==> QuickExit(s, o))
    ensures Reached(s)
  {
    var w := State(AtWait, s.request, true, s.timeout, None, None);
    ReachedWaiting(s.timeout, s.request);
    var result := w.(at := AtResult, waited := Some(Signalled));
    ReachedNext(w, result);
    if o.Bytes? {
      var closing := result.(at := AtCloseEvent(o));
      ReachedNext(result, closing);
      assert s == closing.(at := Returned(o), eventOpen := false);
      ReachedNext(closing, s);
    } else {
      assert s == result.(at := Returned(o));
      ReachedNext(result, s);
    }
  }

  lemma ReachedAfterCancel(s: State, o: Outcome)
    requires s.at == Returned(o) && s.cancelled.Some? && Explains(s, o) && (s.eventOpen <==> QuickExit(s, o))
    ensures Reached(s)
  {
    var c := State(AtCancel, s.request, true, s.timeout, s.waited, None);
    ReachedGivingUp(c);
    if o.CancelRefused? {
      assert s == c.(at := Returned(o), cancelled := Some(false));
      ReachedNext(c, s);
    } else {
      var d := c.(at := AtDrain, cancelled := Some(true));
      ReachedNext(c, d);
      if o.TimedOut? {
        var closing := d.(at := AtCloseEvent(o));
        ReachedNext(d, closing);
        assert s == closing.(at := Returned(o), eventOpen := false);
        ReachedNext(closing, s);
      } else {
        assert s == d.(at := Returned(o));
        ReachedNext(d, s);
      }
    }
  }

  /**
   The outcomes are exactly the explained ones: a call may return with a given outcome, reports of the system, state
   of the request and state of the event if and only if the table of explanations has them.
   */
  lemma OutcomesExactly(s: State, o: Outcome)
    requires s.at == Returned(o)
    ensures Reached(s) <==> Explains(s, o) && (s.eventOpen <==> QuickExit(s, o))
  {
    if Reached(s) {
      var run :| IsRun(run) && run[|run| - 1] == s;
      RunKeepsInv(run);
    }
    if Explains(s, o) && (s.eventOpen <==> QuickExit(s, o)) {
      if s.cancelled.Some? {
        ReachedAfterCancel(s, o);
      } else if s.waited == None {
        ReachedQuick(s, o);
      } else {
        ReachedSignalled(s, o);
      }
    }
  }

  // ---------------------------------------------------------------------------------------------
  // Progress
  // ---------------------------------------------------------------------------------------------

  /** Steps that may still come. */
  function Measure(s: State): nat {
    (match s.at
     case AtCreateEvent => 7
     case AtSubmit => 6
     case AtWait => 4
     case AtResult => 2
     case AtCancel => 3
     case AtDrain => 2
     case AtCloseEvent(_) => 1
     case Returned(_) => 0)
    + if s.request.Pending? then 1 else 0
  }

  lemma NextDecreases(s: State, t: State)
    requires Next(s, t)
    ensures Measure(t) < Measure(s)
  {
  }

  lemma {:induction false} RunLength(run: seq<State>)
    requires IsRun(run)
    ensures |run| + Measure(run[|run| - 1]) <= 8
    decreases |run|
  {
    if 1 < |run| {
      var n := |run| - 1;
      FrontOfRun(run, n);
      RunLength(run[..n]);
      assert run[..n][n - 1] == run[n - 1] && StepAt(run, n - 1);
      NextDecreases(run[n - 1], run[n]);
    }
  }

  /** The thread makes its next call and it comes back, other than by a failing wait. */
  ghost predicate Proceeds(s: State, t: State) {
    ThreadStep(s, t) && (s.at == AtWait ==> t.waited != Some(WaitFailed))
  }

  /** Only the kernel can end this: an infinite wait or a drain on a request that is not complete. */
  ghost predicate Blocked(s: State) {
    s.request.Pending? && (s.at == AtDrain || (s.at == AtWait && WaitMillis(s.timeout) == INFINITE))
  }

  lemma ThreadProceeds(s: State) returns (t: State)
    requires Inv(s) && !s.at.Returned? && !Blocked(s)
    ensures Proceeds(s, t)
  {
    match s.at
    case AtCreateEvent => t := s.(at := AtSubmit, eventOpen := true);
    case AtSubmit => t := s.(at := AtWait, request := Pending);
    case AtWait =>
      if s.request.Pending? {
        t := s.(at := AtCancel, waited := Some(Elapsed));
      } else {
        t := s.(at := AtResult, waited := Some(Signalled));
      }
    case AtResult =>
      if s.request.status == Success {
        t := s.(at := AtCloseEvent(Bytes(s.request.count)));
      } else {
        t := s.(at := Returned(SystemError(CodeOf(s.request.status))));
      }
    case AtCancel => t := s.(at := AtDrain, cancelled := Some(true));
    case AtDrain =>
      if s.request.status.Failed? {
        t := s.(at := Returned(SystemError(s.request.status.code)));
      } else {
        t := s.(at := AtCloseEvent(TimedOut));
      }
    case AtCloseEvent(o) => t := s.(at := Returned(o), eventOpen := false);
  }

  /** On every run the thread can go on alone, without a call failing to wait, except where it has returned
      or is blocked on a pending request; with a finite timeout the wait never blocks it. */
  lemma BlockedExactly(run: seq<State>)
    requires IsRun(run)
    ensures var s := run[|run| - 1];
            && ((exists t :: Proceeds(s, t)) <==> !s.at.Returned? && !Blocked(s))
            && (s.at == AtWait && WaitMillis(s.timeout) != INFINITE ==>
                  Proceeds(s, s.(at := AtCancel, waited := Some(Elapsed))))
  {
    RunKeepsInv(run);
    var s := run[|run| - 1];
    if !s.at.Returned? && !Blocked(s) {
      var t := ThreadProceeds(s);
    }
  }

  /** No run takes more than seven steps. One that has not returned can be continued by the thread, or it
      waits for the kernel to complete the request: unless the kernel never does, every call returns. */
  lemma EveryRunReturns(run: seq<State>) returns (t: State)
    requires IsRun(run)
    ensures |run| <= 8
    ensures var s := run[|run| - 1];
            s.at.Returned? || Proceeds(s, t) || (Blocked(s) && KernelStep(s, t) && !Blocked(t))
  {
    RunLength(run);
    RunKeepsInv(run);
    t := run[|run| - 1];
    if Blocked(t) {
      t := t.(request := Complete(Aborted, 0));
    } else if !t.at.Returned? {
      t := ThreadProceeds(t);
    }
  }
}
