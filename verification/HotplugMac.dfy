/**
 The macOS hotplug worker: a staged setup that takes a port, two contexts and two iterators and may
 fail at every call, one message to the thread that waits for it, and the teardown behind the run loop.

 The two ends of the worker are modelled as methods, on the ledger of references; what the system
 answers is an argument. Its interleavings with the owner are the subject of `HotplugMacThreads`.
 */
module HotplugMac {
  import opened UsbBase
  import L = IoKitLedger

  /** The answers to the calls of the setup, in their order, and how many services the two fresh
      iterators hold. */
  datatype Answers = Answers(
    port: bool,
    source: bool,
    arrivalDictionary: bool,
    arrivalNotification: bool,
    arrivalServices: nat,
    removalDictionary: bool,
    removalNotification: bool,
    removalServices: nat)

  predicate AllSucceed(a: Answers) {
    && a.port && a.source && a.arrivalDictionary && a.arrivalNotification
    && a.removalDictionary && a.removalNotification
  }

  /** What the worker holds while its run loop runs. */
  datatype Resources = Resources(
    port: L.Ref,
    arrivedCtx: L.Ref,
    arrivedIter: L.Ref,
    removedCtx: L.Ref,
    removedIter: L.Ref)

  function RefsOf(r: Resources): set<L.Ref> {
    {r.port, r.arrivedCtx, r.arrivedIter, r.removedCtx, r.removedIter}
  }

  /** Five different references. */
  ghost predicate Separate(r: Resources) {
    && r.port != r.arrivedCtx && r.port != r.arrivedIter && r.port != r.removedCtx && r.port != r.removedIter
    && r.arrivedCtx != r.arrivedIter && r.arrivedCtx != r.removedCtx && r.arrivedCtx != r.removedIter
    && r.arrivedIter != r.removedCtx && r.arrivedIter != r.removedIter && r.removedCtx != r.removedIter
  }

  /** The channel message: a run loop, or null. */
  datatype Message = Null | RunLoop

  class Worker {
    const ledger: L.Ledger
    /** The messages sent so far, each with the references that were live when it was sent. */
    var sent: seq<(Message, set<L.Ref>)>

    constructor (ledger: L.Ledger)
      ensures this.ledger == ledger && sent == []
    {
      this.ledger := ledger;
      sent := [];
    }

    method Send(m: Message)
      modifies this`sent
      ensures sent == old(sent) + [(m, ledger.live)]
    {
      sent := sent + [(m, ledger.live)];
    }

    /** `drain_iterator_silent`. */
    method DrainIterator(iter: L.Ref, services: nat)
      requires ledger.Valid() && iter in ledger.live
      modifies ledger
      ensures ledger.Valid() && ledger.live == old(ledger.live)
    {
      for i := 0 to services
        invariant ledger.Valid() && ledger.live == old(ledger.live)
      {
        var service := ledger.Acquire(L.Service);
        ledger.Release(service);
      }
    }

    /** `IOServiceMatching` and `IOServiceAddMatchingNotification`, which consumes the dictionary
        whether it succeeds or not. */
    method AddNotification(dictionary: bool, notification: bool) returns (iter: Option<L.Ref>)
      requires ledger.Valid()
      modifies ledger
      ensures ledger.Valid()
      ensures iter.Some? <==> dictionary && notification
      ensures iter.None? ==> ledger.live == old(ledger.live)
      ensures iter.Some? ==> iter.value !in old(ledger.live) && ledger.live == old(ledger.live) + {iter.value}
    {
      if !dictionary {
        return None;
      }
      var dict := ledger.Acquire(L.Dictionary);
      ledger.Release(dict);
      if !notification {
        return None;
      }
      var created := ledger.Acquire(L.Iterator);
      return Some(created);
    }

    /** The worker up to and including its message. */
    method Setup(a: Answers) returns (r: Option<Resources>)
      requires ledger.Valid()
      modifies this`sent, ledger
      ensures ledger.Valid()
      ensures r.Some? <==> AllSucceed(a)
      ensures r.None? ==> ledger.live == old(ledger.live) && sent == old(sent) + [(Null, old(ledger.live))]
      ensures r.Some? ==>
        && RefsOf(r.value) !! old(ledger.live) && Separate(r.value)
        && ledger.live == old(ledger.live) + RefsOf(r.value)
        && sent == old(sent) + [(RunLoop, ledger.live)]
    {
      if !a.port {
        Send(Null);
        return None;
      }
      var port := ledger.Acquire(L.Port);
      if !a.source {
        ledger.Release(port);
        Send(Null);
        return None;
      }
      var arrivedCtx := ledger.Acquire(L.Context);
      var arrivedIter := AddNotification(a.arrivalDictionary, a.arrivalNotification);
      if arrivedIter.None? {
        ledger.Release(arrivedCtx);
        ledger.Release(port);
        Send(Null);
        return None;
      }
      DrainIterator(arrivedIter.value, a.arrivalServices);
      ghost var half := ledger.live;
      var removedCtx := ledger.Acquire(L.Context);
      var removedIter := AddNotification(a.removalDictionary, a.removalNotification);
      if removedIter.None? {
        ledger.Release(removedCtx);
        assert ledger.live == half;
        ledger.Release(arrivedCtx);
        ledger.Release(arrivedIter.value);
        ledger.Release(port);
        Send(Null);
        return None;
      }
      DrainIterator(removedIter.value, a.removalServices);
      var held := Resources(port, arrivedCtx, arrivedIter.value, removedCtx, removedIter.value);
      Send(RunLoop);
      return Some(held);
    }

    /** The worker behind its run loop. */
    method Teardown(r: Resources)
      requires ledger.Valid() && RefsOf(r) <= ledger.live && Separate(r)
      modifies ledger
      ensures ledger.Valid() && ledger.live == old(ledger.live) - RefsOf(r)
    {
      ledger.Release(r.arrivedIter);
      ledger.Release(r.removedIter);
      ledger.Release(r.port);
      ledger.Release(r.arrivedCtx);
      ledger.Release(r.removedCtx);
    }
  }
}
