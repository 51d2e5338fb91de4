/**
 The macOS interface search: loops that hold an iterator, a service, a plug-in and an interface at
 a time and may leave at every call, and the endpoint-to-pipe map they fill on the way.

 What IOKit answers for each service of the iterator is an argument (`services`). The one promise
 used is that a failing call hands out no reference.
 */
module IoKitInterfaces {
  import opened UsbBase
  import L = IoKitLedger

  datatype PipeProps = PipeProps(direction: byte, number: byte, transferType: byte, maxPacketSize: u16, interval: byte)

  /** The answers to the calls made for one service, in the order in which they are made. */
  datatype Service = Service(
    plugin: Result<()>,
    query: Result<()>,
    open: Result<()>,
    number: Result<byte>,
    numEndpoints: Result<byte>,
    pipes: seq<Result<PipeProps>>)

  /** Answer of `GetPipeProperties` for a 1-based pipe reference. */
  function PropsOf(s: Service, pipeRef: byte): Result<PipeProps> {
    if 1 <= pipeRef <= |s.pipes| then s.pipes[pipeRef - 1] else Err(Unsupported)
  }

  function AddressOf(p: PipeProps): (a: byte)
    ensures a % 0x80 < 0x10
  {
    p.number % 0x10 + if p.direction != 0 then 0x80 else 0
  }

  /** What `get_pipe_info` reports. */
  datatype PipeInfo = PipeInfo(address: byte, transferType: byte, maxPacketSize: u16, interval: byte)

  function InfoOf(p: PipeProps): PipeInfo {
    PipeInfo(AddressOf(p), p.transferType, p.maxPacketSize, p.interval)
  }

  /** The addresses of the first `n` pipes; a later pipe replaces an earlier one. */
  function Discovered(s: Service, n: nat): Result<map<byte, byte>>
    requires n <= 0xFF
  {
    if n == 0 then Ok(map[])
    else
      var m :- Discovered(s, n - 1);
      var p :- PropsOf(s, n);
      Ok(m[AddressOf(p) := n])
  }

  /** Everything the search learns about one service, unless a call fails. */
  function Inspected(s: Service): Result<map<byte, byte>> {
    if s.plugin.Err? then Err(s.plugin.error)
    else if s.query.Err? then Err(s.query.error)
    else if s.open.Err? then Err(s.open.error)
    else if s.numEndpoints.Err? then Err(s.numEndpoints.error)
    else Discovered(s, s.numEndpoints.value)
  }

  /** Index of the service whose interface has the endpoint, and the pipe map after the search. */
  function SearchEndpoint(services: seq<Service>, e: byte, cache: map<byte, byte>): (Result<nat>, map<byte, byte>) {
    if services == [] then (Err(Other("endpoint not found on any interface")), cache)
    else
      match Inspected(services[0])
      case Err(error) => (Err(error), cache)
      case Ok(found) =>
        if e in found then (Ok(0), cache + found)
        else
          var (r, c) := SearchEndpoint(services[1..], e, cache + found);
          (if r.Ok? then Ok(r.value + 1) else r, c)
  }

  function NumberOf(s: Service): Result<byte> {
    if s.plugin.Err? then Err(s.plugin.error)
    else if s.query.Err? then Err(s.query.error)
    else if s.open.Err? then Err(s.open.error)
    else s.number
  }

  function SearchNumber(services: seq<Service>, n: byte): Result<nat> {
    if services == [] then Err(Other("interface not found"))
    else
      var found :- NumberOf(services[0]);
      if found == n then Ok(0)
      else
        var k :- SearchNumber(services[1..], n);
        Ok(k + 1)
  }

  // ---------------------------------------------------------------------------------------------
  // The pipe map
  // ---------------------------------------------------------------------------------------------

  /** The properties are those of a pipe with address `e`: the direction gives bit 7, the number the low bits. */
  ghost predicate Names(p: PipeProps, e: byte) {
    (0x80 <= e <==> p.direction != 0) && e % 0x80 == p.number % 0x10
  }

  lemma AddressNames(p: PipeProps, e: byte)
    ensures AddressOf(p) == e <==> Names(p, e)
  {
  }

  /** The query of pipe `q` succeeds. */
  ghost predicate PipeOk(s: Service, q: int) {
    1 <= q <= |s.pipes| && s.pipes[q - 1].Ok?
  }

  /** Pipe `q` of the service has address `e`. */
  ghost predicate PipeNames(s: Service, q: int, e: byte) {
    PipeOk(s, q) && Names(s.pipes[q - 1].value, e)
  }

  /** `pipeRef` is the last pipe of the service with address `e`. */
  ghost predicate IsPipeOf(s: Service, pipeRef: byte, e: byte) {
    && s.numEndpoints.Ok? && pipeRef <= s.numEndpoints.value && PipeNames(s, pipeRef, e)
    && forall q :: pipeRef < q <= s.numEndpoints.value ==> !PipeNames(s, q, e)
  }

  /** Every call for the service succeeds. */
  ghost predicate Usable(s: Service) {
    && s.plugin.Ok? && s.query.Ok? && s.open.Ok? && s.numEndpoints.Ok?
    && forall q :: 1 <= q <= s.numEndpoints.value ==> PipeOk(s, q)
  }

  /** One of the pipes the service counts has address `e`. */
  ghost predicate Offers(s: Service, e: byte) {
    s.numEndpoints.Ok? && exists q :: 1 <= q <= s.numEndpoints.value && PipeNames(s, q, e)
  }

  /** Pipe `q` is the first one whose query fails. */
  ghost predicate FirstFailing(s: Service, q: int) {
    1 <= q && !PipeOk(s, q) && forall r :: 1 <= r < q ==> PipeOk(s, r)
  }

  /** `error` is that of the first call for the service that fails. */
  ghost predicate FailsWith(s: Service, error: UsbError) {
    if s.plugin.Err? then error == s.plugin.error
    else if s.query.Err? then error == s.query.error
    else if s.open.Err? then error == s.open.error
    else if s.numEndpoints.Err? then error == s.numEndpoints.error
    else
      exists q :: 1 <= q <= s.numEndpoints.value && FirstFailing(s, q) &&
        error == if q <= |s.pipes| then s.pipes[q - 1].error else Unsupported
  }

  lemma {:induction false} DiscoveredIsExact(s: Service, n: nat, e: byte)
    requires n <= 0xFF && Discovered(s, n).Ok?
    ensures forall q :: 1 <= q <= n ==> PipeOk(s, q)
    ensures var m := Discovered(s, n).value;
            && (e in m <==> exists q :: 1 <= q <= n && PipeNames(s, q, e))
            && (e in m ==>
                  && 1 <= m[e] <= n && PipeNames(s, m[e], e)
                  && forall q :: m[e] < q <= n ==> !PipeNames(s, q, e))
  {
    if 0 < n {
      DiscoveredIsExact(s, n - 1, e);
      var p := PropsOf(s, n).value;
      AddressNames(p, e);
      assert PipeNames(s, n, e) <==> AddressOf(p) == e;
    }
  }

  lemma {:induction false} DiscoveredFailure(s: Service, n: nat)
    requires n <= 0xFF && Discovered(s, n).Err?
    ensures exists q :: 1 <= q <= n && FirstFailing(s, q) &&
              Discovered(s, n).error == if q <= |s.pipes| then s.pipes[q - 1].error else Unsupported
  {
    if Discovered(s, n - 1).Err? {
      DiscoveredFailure(s, n - 1);
    } else {
      DiscoveredIsExact(s, n - 1, 0);
      assert FirstFailing(s, n);
    }
  }

  /** What is learned about a service, from the answers for it alone. */
  lemma InspectedIs(s: Service, e: byte)
    ensures Inspected(s).Ok? <==> Usable(s)
    ensures Inspected(s).Err? ==> FailsWith(s, Inspected(s).error)
    ensures Inspected(s).Ok? ==>
              && (e in Inspected(s).value <==> Offers(s, e))
              && (e in Inspected(s).value ==> IsPipeOf(s, Inspected(s).value[e], e))
  {
    if s.plugin.Ok? && s.query.Ok? && s.open.Ok? && s.numEndpoints.Ok? {
      var n := s.numEndpoints.value;
      if Discovered(s, n).Err? {
        DiscoveredFailure(s, n);
        var q :| 1 <= q <= n && FirstFailing(s, q);
        assert !PipeOk(s, q);
      } else {
        DiscoveredIsExact(s, n, e);
      }
    }
  }

  /**
   A stale map is harmless. Whatever the map held before, when the search succeeds the entry it leaves
   for the endpoint is a pipe of the very interface that is handed out, with the direction and number of
   that address, and the last such pipe; on the way no call for an earlier interface failed, and none of
   them offered the endpoint.
   */
  lemma {:induction false} StaleMapIsHarmless(services: seq<Service>, e: byte, cache: map<byte, byte>)
    ensures var (r, c) := SearchEndpoint(services, e, cache);
            r.Ok? ==>
              && r.value < |services|
              && e in c && IsPipeOf(services[r.value], c[e], e)
              && PassedBy(services, r.value, e)
  {
    if services != [] && Inspected(services[0]).Ok? {
      var found := Inspected(services[0]).value;
      InspectedIs(services[0], e);
      if e !in found {
        StaleMapIsHarmless(services[1..], e, cache + found);
        var r := SearchEndpoint(services, e, cache).0;
        if r.Ok? {
          PassedByCons(services, r.value, e);
        }
      }
    }
  }

  /** No call for the first `i` services fails, and none of them offers the endpoint. */
  ghost predicate PassedBy(services: seq<Service>, i: nat, e: byte)
    requires i <= |services|
  {
    forall j :: 0 <= j < i ==> Usable(services[j]) && !Offers(services[j], e)
  }

  lemma PassedByCons(services: seq<Service>, i: nat, e: byte)
    requires 0 < i <= |services|
    ensures PassedBy(services, i, e) <==>
            Usable(services[0]) && !Offers(services[0], e) && PassedBy(services[1..], i - 1, e)
  {
    var rest := services[1..];
    assert forall j :: 0 <= j < i - 1 ==> rest[j] == services[j + 1];
    assert forall j :: 1 <= j < i ==> services[j] == rest[j - 1];
  }

  /** Service `i` is the first one a search does not pass by, and it offers the endpoint. */
  ghost predicate Found(services: seq<Service>, i: nat, e: byte) {
    i < |services| && PassedBy(services, i, e) && Usable(services[i]) && Offers(services[i], e)
  }

  /** Service `i` is the first one a search does not pass by, and a call for it fails. */
  ghost predicate Broken(services: seq<Service>, i: nat, e: byte) {
    i < |services| && PassedBy(services, i, e) && !Usable(services[i])
  }

  /**
   The outcome of a search, for each way it can end (`SearchEnds`): it succeeds exactly when some interface
   offers the endpoint and no call fails up to it, with the first such interface; otherwise it fails with the
   first error, or, if there was none, with "not found".
   */
  lemma {:induction false} EndpointFoundExactly(services: seq<Service>, e: byte, cache: map<byte, byte>, i: nat)
    ensures var r := SearchEndpoint(services, e, cache).0;
            && (Found(services, i, e) ==> r == Ok(i))
            && (Broken(services, i, e) ==> r.Err? && FailsWith(services[i], r.error))
            && (PassedBy(services, |services|, e) ==> r == Err(Other("endpoint not found on any interface")))
    decreases |services|
  {
    if services != [] {
      InspectedIs(services[0], e);
      PassedByCons(services, |services|, e);
      if Usable(services[0]) && !Offers(services[0], e) {
        if 0 < i {
          EndpointFoundExactly(services[1..], e, cache + Inspected(services[0]).value, i - 1);
          if i <= |services| {
            PassedByCons(services, i, e);
          }
        } else {
          EndpointFoundExactly(services[1..], e, cache + Inspected(services[0]).value, 0);
        }
      } else if 0 < i <= |services| {
        PassedByCons(services, i, e);
      }
    }
  }

  /** A search ends in exactly one of these ways. */
  lemma {:induction false} SearchEnds(services: seq<Service>, e: byte) returns (i: nat)
    ensures Found(services, i, e) || Broken(services, i, e) || (i == |services| && PassedBy(services, i, e))
  {
    if services == [] || !Usable(services[0]) || Offers(services[0], e) {
      i := 0;
    } else {
      var k := SearchEnds(services[1..], e);
      i := k + 1;
      PassedByCons(services, i, e);
    }
  }

  /** A search inspects `v` services without a failing call: those it passes by, and the one it finds. */
  ghost predicate Inspects(services: seq<Service>, e: byte, v: nat) {
    || (0 < v && Found(services, v - 1, e))
    || Broken(services, v, e)
    || (v == |services| && PassedBy(services, v, e))
  }

  /** Of the first `v` services, `j` is the last one that offers the address. */
  ghost predicate LastOffer(services: seq<Service>, v: nat, a: byte, j: nat)
    requires v <= |services|
  {
    j < v && Offers(services[j], a) && forall k :: j < k < v ==> !Offers(services[k], a)
  }

  ghost predicate NoOffer(services: seq<Service>, v: nat, a: byte)
    requires v <= |services|
  {
    forall k :: 0 <= k < v ==> !Offers(services[k], a)
  }

  lemma OfferCons(services: seq<Service>, v: nat, a: byte, j: nat)
    requires 0 < v <= |services|
    ensures NoOffer(services, v, a) <==> !Offers(services[0], a) && NoOffer(services[1..], v - 1, a)
    ensures 0 < j ==> (LastOffer(services, v, a, j) <==> LastOffer(services[1..], v - 1, a, j - 1))
    ensures LastOffer(services, v, a, 0) <==> Offers(services[0], a) && NoOffer(services[1..], v - 1, a)
  {
    var rest := services[1..];
    assert forall k :: 0 <= k < v - 1 ==> rest[k] == services[k + 1];
    assert forall k :: 1 <= k < v ==> services[k] == rest[k - 1];
  }

  /** What the map holds for `a` after the last offer, or as before. */
  ghost predicate MapSays(services: seq<Service>, v: nat, a: byte, j: nat, before: map<byte, byte>, c: map<byte, byte>)
    requires v <= |services|
  {
    && (LastOffer(services, v, a, j) ==> a in c && IsPipeOf(services[j], c[a], a))
    && (NoOffer(services, v, a) ==> (a in c <==> a in before) && (a in c ==> c[a] == before[a]))
  }

  /**
   The map after a search. Of the services the search inspected without a failing call, the last one that offers
   an address decides it, by its last pipe with that address; other addresses keep what they had.
   */
  lemma {:induction false} MapAfterSearch(
      services: seq<Service>, e: byte, cache: map<byte, byte>, v: nat, a: byte, j: nat)
    requires v <= |services| && Inspects(services, e, v)
    ensures MapSays(services, v, a, j, cache, SearchEndpoint(services, e, cache).1)
    decreases |services|
  {
    if services != [] {
      InspectedIs(services[0], e);
      InspectedIs(services[0], a);
      if 0 < v {
        InspectsFirst(services, e, v);
        OfferCons(services, v, a, j);
        var next := cache + Inspected(services[0]).value;
        if !Offers(services[0], e) {
          MapAfterSearch(services[1..], e, next, v - 1, a, if 0 < j then j - 1 else 0);
        } else {
          assert v == 1;
        }
      }
    }
  }

  lemma InspectsFirst(services: seq<Service>, e: byte, v: nat)
    requires 0 < v <= |services| && Inspects(services, e, v)
    ensures Usable(services[0])
    ensures Offers(services[0], e) ==> v == 1
    ensures !Offers(services[0], e) ==> Inspects(services[1..], e, v - 1)
  {
    PassedByCons(services, v, e);
    if 1 < v {
      PassedByCons(services, v - 1, e);
    }
  }

  /** The calls up to the query of the number succeed. */
  ghost predicate GivesNumber(s: Service) {
    s.plugin.Ok? && s.query.Ok? && s.open.Ok? && s.number.Ok?
  }

  /** The first `i` services have other numbers, all told without a failing call. */
  ghost predicate OtherNumbers(services: seq<Service>, i: nat, n: byte)
    requires i <= |services|
  {
    forall j :: 0 <= j < i ==> GivesNumber(services[j]) && services[j].number != Ok(n)
  }

  lemma OtherNumbersCons(services: seq<Service>, i: nat, n: byte)
    requires 0 < i <= |services|
    ensures OtherNumbers(services, i, n) <==>
            GivesNumber(services[0]) && services[0].number != Ok(n) && OtherNumbers(services[1..], i - 1, n)
  {
    var rest := services[1..];
    assert forall j :: 0 <= j < i - 1 ==> rest[j] == services[j + 1];
    assert forall j :: 1 <= j < i ==> services[j] == rest[j - 1];
  }

  lemma {:induction false} NumberSearchEnds(services: seq<Service>, n: byte) returns (i: nat)
    ensures i <= |services| && OtherNumbers(services, i, n)
    ensures i == |services| || !GivesNumber(services[i]) || services[i].number == Ok(n)
  {
    if services == [] || !GivesNumber(services[0]) || services[0].number == Ok(n) {
      i := 0;
    } else {
      var k := NumberSearchEnds(services[1..], n);
      i := k + 1;
      OtherNumbersCons(services, i, n);
    }
  }

  /** The search by number hands out the first interface with that number, if no call fails before; it fails
      with the first error before that, or with "not found". */
  lemma {:induction false} NumberFoundIsFirst(services: seq<Service>, n: byte, i: nat)
    requires i <= |services| && OtherNumbers(services, i, n)
    ensures var r := SearchNumber(services, n);
            && (i == |services| ==> r == Err(Other("interface not found")))
            && (i < |services| && GivesNumber(services[i]) && services[i].number == Ok(n) ==> r == Ok(i))
            && (i < |services| && !GivesNumber(services[i]) ==>
                  var s := services[i];
                  r == Err(if s.plugin.Err? then s.plugin.error else if s.query.Err? then s.query.error
                           else if s.open.Err? then s.open.error else s.number.error))
    decreases |services|
  {
    if 0 < i {
      OtherNumbersCons(services, i, n);
      NumberFoundIsFirst(services[1..], n, i - 1);
    }
  }

  /** The outcome of a search does not depend on the map at all. */
  lemma {:induction false} OutcomeIgnoresMap(services: seq<Service>, e: byte, c: map<byte, byte>, d: map<byte, byte>)
    ensures SearchEndpoint(services, e, c).0 == SearchEndpoint(services, e, d).0
  {
    if services != [] && Inspected(services[0]).Ok? {
      var found := Inspected(services[0]).value;
      OutcomeIgnoresMap(services[1..], e, c + found, d + found);
    }
  }

  /** An address with a bit set between the number and the direction is on no interface. */
  lemma ReservedBitsAreNeverFound(services: seq<Service>, e: byte, cache: map<byte, byte>)
    requires 0x10 <= e % 0x80
    ensures SearchEndpoint(services, e, cache).0.Err?
  {
    StaleMapIsHarmless(services, e, cache);
  }

  /** One more transfer or query happened, on the pipe of service `k` that has the endpoint. */
  ghost predicate OneMore(
      before: seq<(Service, byte)>, after: seq<(Service, byte)>, services: seq<Service>, k: nat, e: byte)
  {
    && k < |services| && |after| == |before| + 1 && before < after
    && after[|before|].0 == services[k] && IsPipeOf(services[k], after[|before|].1, e)
  }

  class MacOsDevice {
    const ledger: L.Ledger
    const deviceNull: bool
    var pipeCache: map<byte, byte>
    /** The system's record of the interfaces that are open, each with the service it belongs to. */
    var openInterfaces: map<L.Ref, Service>
    /** The system's record of the transfers: on which service's interface and on which pipe of it. */
    var transfers: seq<(Service, byte)>
    /** And the requested changes of settings: on which service's interface, and to which setting. */
    var settings: seq<(Service, byte)>
    /** The same for the property queries of `get_pipe_info`. */
    var queries: seq<(Service, byte)>

    ghost predicate Valid()
      reads this, ledger
    {
      ledger.Valid() && openInterfaces.Keys <= ledger.live
    }

    constructor (ledger: L.Ledger, deviceNull: bool)
      requires ledger.Valid()
      ensures Valid() && this.ledger == ledger && this.deviceNull == deviceNull
      ensures pipeCache == map[] && openInterfaces == map[] && transfers == [] && queries == [] && settings == []
    {
      this.ledger := ledger;
      this.deviceNull := deviceNull;
      pipeCache, openInterfaces, transfers, queries, settings := map[], map[], [], [], [];
    }

    /** `close_and_release_interface`. Closing an interface that is not open has no effect. */
    method CloseAndRelease(intf: L.Ref)
      requires Valid() && intf in ledger.live
      modifies this`openInterfaces, ledger
      ensures Valid()
      ensures openInterfaces == old(openInterfaces) - {intf} && ledger.live == old(ledger.live) - {intf}
    {
      openInterfaces := openInterfaces - {intf};
      ledger.Release(intf);
    }

    /** The calls both searches make for one service: plug-in, query, open. */
    method OpenService(s: Service) returns (r: Result<L.Ref>)
      requires Valid()
      modifies this`openInterfaces, ledger
      ensures Valid()
      ensures r.Err? <==> s.plugin.Err? || s.query.Err? || s.open.Err?
      ensures r.Err? ==>
        && r.error == (if s.plugin.Err? then s.plugin.error else if s.query.Err? then s.query.error else s.open.error)
        && ledger.live == old(ledger.live) && openInterfaces == old(openInterfaces)
      ensures r.Ok? ==>
        && r.value !in old(ledger.live)
        && ledger.live == old(ledger.live) + {r.value} && openInterfaces == old(openInterfaces)[r.value := s]
    {
      var service := ledger.Acquire(L.Service);
      if s.plugin.Err? {
        ledger.Release(service);
        return Err(s.plugin.error);
      }
      var plugin := ledger.Acquire(L.PlugIn);
      ledger.Release(service);
      if s.query.Err? {
        ledger.Release(plugin);
        return Err(s.query.error);
      }
      var intf := ledger.Acquire(L.Interface);
      ledger.Release(plugin);
      if s.open.Err? {
        CloseAndRelease(intf);
        return Err(s.open.error);
      }
      openInterfaces := openInterfaces[intf := s];
      return Ok(intf);
    }

    /** The scan over the pipes of an open interface. */
    method DiscoverPipes(s: Service) returns (r: Result<map<byte, byte>>)
      requires s.numEndpoints.Ok?
      ensures r == Discovered(s, s.numEndpoints.value)
    {
      var discovered: map<byte, byte> := map[];
      var n: nat := s.numEndpoints.value;
      var pipeRef: nat := 1;
      while pipeRef <= n
        invariant 1 <= pipeRef <= n + 1
        invariant Discovered(s, pipeRef - 1) == Ok(discovered)
      {
        var p := PropsOf(s, pipeRef);
        if p.Err? {
          DiscoveredFails(s, pipeRef, n);
          return Err(p.error);
        }
        discovered := discovered[AddressOf(p.value) := pipeRef];
        pipeRef := pipeRef + 1;
      }
      return Ok(discovered);
    }

    /** One round of `open_interface_for_endpoint` up to the update of the pipe map. */
    method InspectService(s: Service) returns (r: Result<(L.Ref, map<byte, byte>)>)
      requires Valid()
      modifies this`openInterfaces, ledger
      ensures Valid()
      ensures match Inspected(s)
              case Err(e) =>
                r == Err(e) && ledger.live == old(ledger.live) && openInterfaces == old(openInterfaces)
              case Ok(m) =>
                && r.Ok? && r.value.1 == m && r.value.0 !in old(ledger.live)
                && ledger.live == old(ledger.live) + {r.value.0}
                && openInterfaces == old(openInterfaces)[r.value.0 := s]
    {
      var intf :- OpenService(s);
      if s.numEndpoints.Err? {
        CloseAndRelease(intf);
        return Err(s.numEndpoints.error);
      }
      var discovered := DiscoverPipes(s);
      if discovered.Err? {
        CloseAndRelease(intf);
        return Err(discovered.error);
      }
      return Ok((intf, discovered.value));
    }

    /** `open_interface_for_endpoint`. */
    method OpenInterfaceForEndpoint(iterator_: Result<()>, services: seq<Service>, endpoint: byte)
      returns (r: Result<L.Ref>)
      requires Valid()
      modifies this`pipeCache, this`openInterfaces, ledger
      ensures Valid()
      ensures r.Err? ==> ledger.live == old(ledger.live) && openInterfaces == old(openInterfaces)
      ensures r.Ok? ==>
        && r.value !in old(ledger.live)
        && ledger.live == old(ledger.live) + {r.value}
      ensures deviceNull ==> r == Err(InvalidHandle) && pipeCache == old(pipeCache)
      ensures !deviceNull && iterator_.Err? ==> r == Err(iterator_.error) && pipeCache == old(pipeCache)
      ensures !deviceNull && iterator_.Ok? ==>
        var (k, c) := SearchEndpoint(services, endpoint, old(pipeCache));
        && pipeCache == c && (r.Ok? <==> k.Ok?) && (k.Err? ==> r == Err(k.error))
        && (k.Ok? ==> k.value < |services|
                      && openInterfaces == old(openInterfaces)[r.value := services[k.value]])
    {
      if deviceNull {
        return Err(InvalidHandle);
      }
      if iterator_.Err? {
        return Err(iterator_.error);
      }
      var iter := ledger.Acquire(L.Iterator);
      var i := 0;
      ghost var (k, c) := SearchEndpoint(services, endpoint, pipeCache);
      while i < |services|
        invariant i <= |services| && Valid()
        invariant iter !in old(ledger.live) && iter in ledger.live
        invariant ledger.live == old(ledger.live) + {iter} && openInterfaces == old(openInterfaces)
        invariant var (k', c') := SearchEndpoint(services[i..], endpoint, pipeCache);
                  c' == c && (k.Err? ==> k' == k) && (k.Ok? ==> k'.Ok? && k'.value + i == k.value)
      {
        var s := services[i];
        assert services[i..][1..] == services[i + 1..];
        var inspected := InspectService(s);
        if inspected.Err? {
          ledger.Release(iter);
          return Err(inspected.error);
        }
        var (intf, discovered) := inspected.value;
        pipeCache := pipeCache + discovered;
        if endpoint in discovered {
          ledger.Release(iter);
          return Ok(intf);
        }
        CloseAndRelease(intf);
        i := i + 1;
      }
      ledger.Release(iter);
      return Err(Other("endpoint not found on any interface"));
    }

    /** `find_interface`. */
    method FindInterface(iterator_: Result<()>, services: seq<Service>, interfaceNumber: byte)
      returns (r: Result<L.Ref>)
      requires Valid()
      modifies this`openInterfaces, ledger
      ensures Valid()
      ensures r.Err? ==> ledger.live == old(ledger.live) && openInterfaces == old(openInterfaces)
      ensures r.Ok? ==>
        && r.value !in old(ledger.live)
        && ledger.live == old(ledger.live) + {r.value}
      ensures deviceNull ==> r == Err(InvalidHandle)
      ensures !deviceNull && iterator_.Err? ==> r == Err(iterator_.error)
      ensures !deviceNull && iterator_.Ok? ==>
        var k := SearchNumber(services, interfaceNumber);
        && (r.Ok? <==> k.Ok?) && (k.Err? ==> r == Err(k.error))
        && (k.Ok? ==> k.value < |services|
                      && openInterfaces == old(openInterfaces)[r.value := services[k.value]])
    {
      if deviceNull {
        return Err(InvalidHandle);
      }
      if iterator_.Err? {
        return Err(iterator_.error);
      }
      var iter := ledger.Acquire(L.Iterator);
      var i := 0;
      ghost var k := SearchNumber(services, interfaceNumber);
      while i < |services|
        invariant i <= |services| && Valid()
        invariant iter !in old(ledger.live) && iter in ledger.live
        invariant ledger.live == old(ledger.live) + {iter} && openInterfaces == old(openInterfaces)
        invariant var k' := SearchNumber(services[i..], interfaceNumber);
                  (k.Err? ==> k' == k) && (k.Ok? ==> k'.Ok? && k'.value + i == k.value)
      {
        var s := services[i];
        assert services[i..][1..] == services[i + 1..];
        var intf := OpenService(s);
        if intf.Err? {
          ledger.Release(iter);
          return Err(intf.error);
        }
        if s.number.Err? {
          CloseAndRelease(intf.value);
          ledger.Release(iter);
          return Err(s.number.error);
        }
        if s.number.value == interfaceNumber {
          ledger.Release(iter);
          return Ok(intf.value);
        }
        CloseAndRelease(intf.value);
        i := i + 1;
      }
      ledger.Release(iter);
      return Err(Other("interface not found"));
    }

    /** The search followed by the lookup in the pipe map. The lookup never fails: the map has the
        endpoint, and on a pipe of the very interface that was opened. */
    method OpenPipe(iterator_: Result<()>, services: seq<Service>, endpoint: byte)
      returns (r: Result<(L.Ref, byte)>)
      requires Valid()
      modifies this`pipeCache, this`openInterfaces, ledger
      ensures Valid()
      ensures r.Err? ==> ledger.live == old(ledger.live) && openInterfaces == old(openInterfaces)
      ensures r.Ok? ==>
        && r.value.0 !in old(ledger.live) && ledger.live == old(ledger.live) + {r.value.0}
        && r.value.0 in openInterfaces && IsPipeOf(openInterfaces[r.value.0], r.value.1, endpoint)
        && openInterfaces == old(openInterfaces)[r.value.0 := openInterfaces[r.value.0]]
      ensures deviceNull || iterator_.Err? ==> r.Err?
      ensures !deviceNull && iterator_.Ok? ==>
        var k := SearchEndpoint(services, endpoint, old(pipeCache)).0;
        && (k.Err? ==> r == Err(k.error))
        && (k.Ok? ==> r.Ok? && k.value < |services| && openInterfaces[r.value.0] == services[k.value])
    {
      StaleMapIsHarmless(services, endpoint, pipeCache);
      var intf :- OpenInterfaceForEndpoint(iterator_, services, endpoint);
      assert endpoint in pipeCache;
      return Ok((intf, pipeCache[endpoint]));
    }

    /** `bulk_read`: what the system transferred, after exactly one transfer on the right pipe; every
        path gives back all it took. */
    method BulkRead(iterator_: Result<()>, services: seq<Service>, endpoint: byte, len: nat, answer: Result<nat>)
      returns (r: Result<nat>)
      requires Valid()
      modifies this, ledger
      ensures Valid() && ledger.live == old(ledger.live) && openInterfaces == old(openInterfaces)
      ensures queries == old(queries) && settings == old(settings)
      ensures len == 0 ==> r == Ok(0)
      ensures 0xFFFF_FFFF < len ==> r.Err?
      ensures len == 0 || 0xFFFF_FFFF < len || deviceNull || iterator_.Err? ==> transfers == old(transfers)
      ensures 0 < len <= 0xFFFF_FFFF && !deviceNull && iterator_.Ok? ==>
        var k := SearchEndpoint(services, endpoint, old(pipeCache)).0;
        && (k.Err? ==> r == Err(k.error) && transfers == old(transfers))
        && (k.Ok? ==> r == answer && OneMore(old(transfers), transfers, services, k.value, endpoint))
    {
      if len == 0 {
        return Ok(0);
      }
      if len > 0xFFFF_FFFF {
        return Err(Other("buffer length exceeds macOS pipe size"));
      }
      var pipe :- OpenPipe(iterator_, services, endpoint);
      var (intf, pipeRef) := pipe;
      transfers := transfers + [(openInterfaces[intf], pipeRef)];
      CloseAndRelease(intf);
      return answer;
    }

    /** `bulk_write`: like `bulk_read`, but a success always reports the full length. */
    method BulkWrite(iterator_: Result<()>, services: seq<Service>, endpoint: byte, len: nat, answer: Result<()>)
      returns (r: Result<nat>)
      requires Valid()
      modifies this, ledger
      ensures Valid() && ledger.live == old(ledger.live) && openInterfaces == old(openInterfaces)
      ensures queries == old(queries) && settings == old(settings)
      ensures len == 0 ==> r == Ok(0)
      ensures 0xFFFF_FFFF < len ==> r.Err?
      ensures len == 0 || 0xFFFF_FFFF < len || deviceNull || iterator_.Err? ==> transfers == old(transfers)
      ensures 0 < len <= 0xFFFF_FFFF && !deviceNull && iterator_.Ok? ==>
        var k := SearchEndpoint(services, endpoint, old(pipeCache)).0;
        && (k.Err? ==> r == Err(k.error) && transfers == old(transfers))
        && (k.Ok? ==>
              && r == (if answer.Ok? then Ok(len) else Err(answer.error))
              && OneMore(old(transfers), transfers, services, k.value, endpoint))
    {
      if len == 0 {
        return Ok(0);
      }
      if len > 0xFFFF_FFFF {
        return Err(Other("buffer length exceeds macOS pipe size"));
      }
      var pipe :- OpenPipe(iterator_, services, endpoint);
      var (intf, pipeRef) := pipe;
      transfers := transfers + [(openInterfaces[intf], pipeRef)];
      CloseAndRelease(intf);
      if answer.Err? {
        return Err(answer.error);
      }
      return Ok(len);
    }

    /** `get_pipe_info`: after one query of the properties, of the pipe that has the endpoint, what the system
        answered, taken apart. Every path gives back all it took. */
    method GetPipeInfo(iterator_: Result<()>, services: seq<Service>, endpoint: byte, answer: Result<PipeProps>)
      returns (r: Result<PipeInfo>)
      requires Valid()
      modifies this, ledger
      ensures Valid() && ledger.live == old(ledger.live) && openInterfaces == old(openInterfaces)
      ensures transfers == old(transfers) && settings == old(settings)
      ensures deviceNull || iterator_.Err? ==> r.Err? && queries == old(queries)
      ensures !deviceNull && iterator_.Ok? ==>
        var k := SearchEndpoint(services, endpoint, old(pipeCache)).0;
        && (k.Err? ==> r == Err(k.error) && queries == old(queries))
        && (k.Ok? ==>
              && OneMore(old(queries), queries, services, k.value, endpoint)
              && (answer.Err? ==> r == Err(answer.error))
              && (answer.Ok? ==>
                    && r.Ok? && Names(answer.value, r.value.address)
                    && r.value.transferType == answer.value.transferType
                    && r.value.maxPacketSize == answer.value.maxPacketSize
                    && r.value.interval == answer.value.interval)
              && (answer == PropsOf(services[k.value], queries[|queries| - 1].1) ==>
                    r.Ok? && r.value.address == endpoint))
    {
      var pipe :- OpenPipe(iterator_, services, endpoint);
      var (intf, pipeRef) := pipe;
      queries := queries + [(openInterfaces[intf], pipeRef)];
      CloseAndRelease(intf);
      if answer.Err? {
        return Err(answer.error);
      }
      return Ok(InfoOf(answer.value));
    }

    /** `set_alternate_setting`: the setting asked for is requested once, on the first interface with the
        number, and the pipe map is emptied exactly when the system changed it. */
    method SetAlternateSetting(
        iterator_: Result<()>, services: seq<Service>, interface_: byte, alt: byte, answer: Result<()>)
      returns (r: Result<()>)
      requires Valid()
      modifies this, ledger
      ensures Valid() && ledger.live == old(ledger.live) && openInterfaces == old(openInterfaces)
      ensures transfers == old(transfers) && queries == old(queries)
      ensures r.Ok? ==> pipeCache == map[]
      ensures r.Err? ==> pipeCache == old(pipeCache)
      ensures deviceNull || iterator_.Err? ==> r.Err? && settings == old(settings)
      ensures !deviceNull && iterator_.Ok? ==>
        var k := SearchNumber(services, interface_);
        && (k.Err? ==> r == Err(k.error) && settings == old(settings))
        && (k.Ok? ==> r == answer && k.value < |services| && settings == old(settings) + [(services[k.value], alt)])
    {
      var intf :- FindInterface(iterator_, services, interface_);
      settings := settings + [(openInterfaces[intf], alt)];
      CloseAndRelease(intf);
      if answer.Err? {
        return answer;
      }
      pipeCache := map[];
      return answer;
    }
  }

  /** A failing pipe query makes the whole scan fail. */
  lemma {:induction false} DiscoveredFails(s: Service, k: nat, n: nat)
    requires 1 <= k <= n <= 0xFF && Discovered(s, k - 1).Ok? && PropsOf(s, k).Err?
    ensures Discovered(s, n) == Err(PropsOf(s, k).error)
    decreases n
  {
    if k < n {
      DiscoveredFails(s, k, n - 1);
    }
  }
}
