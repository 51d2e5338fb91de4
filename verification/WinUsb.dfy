/**
 Interface claiming on WinUSB: the interface handles a device holds, the endpoint cache, and the
 operating system's ledger of live handles.

 What the system answers is an argument of the operations (`replies`), so every theorem about them
 holds for all answers. Its promises are only these: a handle it grants is not live already, and
 `WinUsb_QueryPipe` enumerates a fixed pipe list for as long as a handle lives.
 */
module WinUsb {
  import opened UsbBase

  type Handle = nat

  datatype Pipe = Pipe(id: byte, kind: byte, maxPacketSize: u16, interval: byte)

  /** Answer to `WinUsb_GetAssociatedInterface`; `number` is what the interface descriptor says, if
      it can be queried. */
  datatype Reply =
    | Refused
    | Granted(handle: Handle, number: Option<byte>, pipes: seq<Pipe>)

  /** Answer to `CreateFileW`; `InvalidFile` stands for a success without a handle. */
  datatype FileReply = FileOpened | InvalidFile | FileFailed(error: UsbError, accessDenied: bool)

  /** One of the two attempts to open the file succeeds; the second follows exactly on a denied first one. */
  predicate FileGranted(first: FileReply, second: FileReply) {
    first.FileOpened? || (first.FileFailed? && first.accessDenied && second.FileOpened?)
  }

  /** The fields of the device object followed by the ledger of the operating system. */
  datatype State = State(
    primary: Handle,
    assoc: seq<(byte, Handle)>,
    cache: map<byte, Handle>,
    live: set<Handle>,
    pipes: map<Handle, seq<Pipe>>,
    granted: multiset<Handle>,
    freed: seq<Handle>,
    fileOpen: bool,
    closedAfter: Option<nat>)   // how many handles had been freed when the file was closed

  /** Addresses among the first 32 pipes, the ones the library enumerates. */
  function PipeIds(ps: seq<Pipe>): set<byte> {
    set i | 0 <= i < Min(32, |ps|) :: ps[i].id
  }

  /** The first enumerated pipe with address `e`, from index `i` on. */
  function FirstPipe(ps: seq<Pipe>, i: nat, e: byte): (p: Option<Pipe>)
    ensures p.Some? ==> p.value.id == e && p.value.id in PipeIds(ps)
    ensures i == 0 && p.None? ==> e !in PipeIds(ps)
    ensures p.None? ==> forall j :: i <= j < Min(32, |ps|) ==> ps[j].id != e
    decreases 32 - i
  {
    if 32 <= i || |ps| <= i then None
    else if ps[i].id == e then Some(ps[i])
    else FirstPipe(ps, i + 1, e)
  }

  function AssocHandles(assoc: seq<(byte, Handle)>): seq<Handle> {
    seq(|assoc|, i requires 0 <= i < |assoc| => assoc[i].1)
  }

  /** All handles a device holds, in the order in which it probes them. */
  function Held(s: State): seq<Handle> {
    [s.primary] + AssocHandles(s.assoc)
  }

  predicate Carries(s: State, h: Handle, e: byte) {
    h in s.pipes && e in PipeIds(s.pipes[h])
  }

  /** Index of the first handle in `hs` that carries `e`, or the length of `hs`. */
  function ProbeIndex(pipes: map<Handle, seq<Pipe>>, hs: seq<Handle>, e: byte): (i: nat)
    ensures i <= |hs|
    ensures i < |hs| ==> hs[i] in pipes && e in PipeIds(pipes[hs[i]])
    ensures forall j :: 0 <= j < i ==> hs[j] in pipes ==> e !in PipeIds(pipes[hs[j]])
  {
    if hs == [] || (hs[0] in pipes && e in PipeIds(pipes[hs[0]])) then 0
    else 1 + ProbeIndex(pipes, hs[1..], e)
  }

  /** One step of the scan, at handle `i`. */
  lemma ProbeStep(pipes: map<Handle, seq<Pipe>>, hs: seq<Handle>, i: nat, e: byte)
    requires i < |hs|
    ensures hs[i] in pipes && e in PipeIds(pipes[hs[i]]) ==> ProbeIndex(pipes, hs[i..], e) == 0
    ensures !(hs[i] in pipes && e in PipeIds(pipes[hs[i]])) ==>
              ProbeIndex(pipes, hs[i..], e) == 1 + ProbeIndex(pipes, hs[i + 1..], e)
  {
    assert hs[i..][1..] == hs[i + 1..];
  }

  /** The plain scan over all held handles, with the primary handle as fallback. */
  function Probe(s: State, e: byte): Handle {
    var i := ProbeIndex(s.pipes, Held(s), e);
    if i < |Held(s)| then Held(s)[i] else s.primary
  }

  function PipeInfo(s: State, e: byte): Result<Pipe> {
    var i := ProbeIndex(s.pipes, Held(s), e);
    if i < |Held(s)| then
      var p := FirstPipe(s.pipes[Held(s)[i]], 0, e);
      if p.Some? then Ok(p.value) else Err(Other("endpoint not found on any claimed interface"))
    else Err(Other("endpoint not found on any claimed interface"))
  }

  function HandleFor(s: State, e: byte): Handle {
    if e in s.cache then s.cache[e]
    else if s.assoc == [] then s.primary
    else Probe(s, e)
  }

  // The elementary changes of state.

  function Grant(s: State, h: Handle, ps: seq<Pipe>): State {
    s.(live := s.live + {h}, pipes := s.pipes[h := ps], granted := s.granted + multiset{h})
  }

  function Free(s: State, h: Handle): State {
    s.(live := s.live - {h}, freed := s.freed + [h])
  }

  /** The cache after the first `n` pipes in `ps` were entered for `h`. */
  function Cached(cache: map<byte, Handle>, ps: seq<Pipe>, n: nat, h: Handle): map<byte, Handle>
    requires n <= |ps|
  {
    if n == 0 then cache else Cached(cache, ps, n - 1, h)[ps[n - 1].id := h]
  }

  function CachePipes(s: State, h: Handle): State
    requires h in s.pipes
  {
    s.(cache := Cached(s.cache, s.pipes[h], Min(32, |s.pipes[h]|), h))
  }

  function Evict(cache: map<byte, Handle>, h: Handle): map<byte, Handle> {
    map e | e in cache && cache[e] != h :: cache[e]
  }

  /** Position of the first entry for interface `n`, or the length of the list. */
  function Position(assoc: seq<(byte, Handle)>, n: byte): (p: nat)
    ensures p <= |assoc|
    ensures p < |assoc| ==> assoc[p].0 == n
    ensures forall i :: 0 <= i < p ==> assoc[i].0 != n
  {
    if assoc == [] || assoc[0].0 == n then 0 else 1 + Position(assoc[1..], n)
  }

  /** The claim loop from its current candidate on. */
  function Search(s: State, n: byte, replies: seq<Reply>): (State, Result<()>)
    decreases |replies|
  {
    if replies == [] || replies[0].Refused? then
      (s, Err(Other("interface not found among associated interfaces")))
    else
      var h := replies[0].handle;
      var g := Grant(s, h, replies[0].pipes);
      if replies[0].number == Some(n) then
        var c := CachePipes(g, h);
        (c.(assoc := c.assoc + [(n, h)]), Ok(()))
      else Search(Free(g, h), n, replies[1..])
  }

  /** The state after a candidate was granted, and kept or freed again. */
  function Tried(s: State, n: byte, r: Reply): State
    requires r.Granted?
  {
    var g := Grant(s, r.handle, r.pipes);
    if r.number == Some(n) then CachePipes(g, r.handle).(assoc := s.assoc + [(n, r.handle)]) else Free(g, r.handle)
  }

  /** A search that is to end in `end` is in state `s`, with the candidates from `i` on before it. */
  ghost predicate Searching(end: (State, Result<()>), s: State, n: byte, replies: seq<Reply>, i: nat)
    requires i <= |replies|
  {
    end == Search(s, n, replies[i..])
  }

  /** One round of the claim loop, on candidate `i`. */
  lemma SearchStep(end: (State, Result<()>), s: State, n: byte, replies: seq<Reply>, i: nat)
    requires i <= |replies| && Searching(end, s, n, replies, i)
    ensures i == |replies| || replies[i].Refused? ==>
      end == (s, Err(Other("interface not found among associated interfaces")))
    ensures i < |replies| && replies[i].Granted? ==>
      if replies[i].number == Some(n) then end == (Tried(s, n, replies[i]), Ok(()))
      else Searching(end, Tried(s, n, replies[i]), n, replies, i + 1)
  {
    if i < |replies| {
      assert replies[i..][1..] == replies[i + 1..];
    }
  }

  function Claim(s: State, n: byte, replies: seq<Reply>): (State, Result<()>)
    requires s.primary in s.pipes
  {
    if n == 0 then (CachePipes(s, s.primary), Ok(()))
    else if Position(s.assoc, n) < |s.assoc| then (s, Ok(()))
    else Search(s, n, replies[..Min(32, |replies|)])
  }

  function Without<T>(xs: seq<T>, p: nat): seq<T>
    requires p < |xs|
  {
    xs[..p] + xs[p + 1..]
  }

  function Release(s: State, n: byte): State {
    var p := Position(s.assoc, n);
    if n == 0 || p == |s.assoc| then s
    else
      var h := s.assoc[p].1;
      Free(s.(assoc := Without(s.assoc, p), cache := Evict(s.cache, h)), h)
  }

  function Elements<T>(xs: seq<T>): set<T> {
    set x | x in xs
  }

  function Reverse<T>(xs: seq<T>): seq<T> {
    if xs == [] then [] else Reverse(xs[1..]) + [xs[0]]
  }

  function Dropped(s: State): State {
    var freed := s.freed + Reverse(AssocHandles(s.assoc)) + [s.primary];
    s.(assoc := [], live := s.live - Elements(Held(s)),
       freed := freed, fileOpen := false, closedAfter := Some(|freed|))
  }

  ghost predicate Distinct<T(!new)>(xs: seq<T>) {
    forall i, j :: 0 <= i < j < |xs| ==> xs[i] != xs[j]
  }

  ghost predicate Numbered(assoc: seq<(byte, Handle)>) {
    && (forall i :: 0 <= i < |assoc| ==> assoc[i].0 != 0)
    && (forall i, j :: 0 <= i < j < |assoc| ==> assoc[i].0 != assoc[j].0)
  }

  /** Every cached handle is live and carries the address it is cached for. */
  ghost predicate CacheSound(cache: map<byte, Handle>, live: set<Handle>, pipes: map<Handle, seq<Pipe>>) {
    && live <= pipes.Keys
    && forall e :: e in cache ==> cache[e] in live && e in PipeIds(pipes[cache[e]])
  }

  /** Every grant is accounted for, by a free or by a live handle. */
  ghost predicate Balanced(granted: multiset<Handle>, freed: seq<Handle>, live: set<Handle>) {
    granted == multiset(freed) + multiset(live)
  }

  lemma TailStep(hs: seq<Handle>, i: nat)
    requires Distinct(hs) && i < |hs|
    ensures Reverse(hs[i..]) == Reverse(hs[i + 1..]) + [hs[i]]
    ensures Elements(hs[i..]) == {hs[i]} + Elements(hs[i + 1..])
    ensures hs[i] in Elements(hs) && hs[i] !in Elements(hs[i + 1..])
  {
    assert hs[i..][1..] == hs[i + 1..];
    assert hs[i..] == [hs[i]] + hs[i + 1..];
  }

  /** What holds between any two calls. */
  ghost predicate Inv(s: State) {
    && Numbered(s.assoc)
    && Distinct(Held(s)) && s.live == Elements(Held(s))
    && CacheSound(s.cache, s.live, s.pipes)
    && Balanced(s.granted, s.freed, s.live)
  }

  lemma HeldDistinct(s: State)
    requires Inv(s)
    ensures s.primary !in AssocHandles(s.assoc) && Distinct(AssocHandles(s.assoc))
    ensures s.primary in s.live && s.primary in s.pipes
    ensures forall i :: 0 <= i < |s.assoc| ==> s.assoc[i].1 in s.live
  {
    var hs := AssocHandles(s.assoc);
    DistinctTail(s.primary, hs);
    forall i | 0 <= i < |s.assoc|
      ensures s.assoc[i].1 in s.live
    {
      assert s.assoc[i].1 == hs[i];
    }
  }

  lemma DistinctTail(x: Handle, hs: seq<Handle>)
    requires Distinct([x] + hs)
    ensures x !in hs && Distinct(hs)
    ensures Elements([x] + hs) == {x} + Elements(hs)
  {
    var all := [x] + hs;
    assert forall i :: 0 <= i < |hs| ==> hs[i] == all[i + 1] != all[0];
  }

  /** The system's promise about the handles it grants. */
  ghost predicate FreshReplies(live: set<Handle>, replies: seq<Reply>) {
    forall i :: 0 <= i < |replies| && replies[i].Granted? ==> replies[i].handle !in live
  }

  /** The operating system's side: it only keeps the ledger. */
  class System {
    var live: set<Handle>
    var pipes: map<Handle, seq<Pipe>>
    var granted: multiset<Handle>
    var freed: seq<Handle>
    var fileOpen: bool
    var closedAfter: Option<nat>

    constructor ()
      ensures live == {} && pipes == map[] && granted == multiset{} && freed == []
      ensures !fileOpen && closedAfter == None
    {
      live, pipes, granted, freed, fileOpen, closedAfter := {}, map[], multiset{}, [], false, None;
    }

    method CreateFile(reply: FileReply)
      requires !fileOpen
      modifies this`fileOpen
      ensures fileOpen <==> reply.FileOpened?
    {
      fileOpen := reply.FileOpened?;
    }

    /** `WinUsb_Initialize`. */
    method Initialize(h: Handle, ps: seq<Pipe>)
      requires fileOpen && h !in live
      modifies this
      ensures live == old(live) + {h} && pipes == old(pipes)[h := ps]
      ensures granted == old(granted) + multiset{h} && freed == old(freed)
      ensures fileOpen && closedAfter == old(closedAfter)
    {
      live, pipes, granted := live + {h}, pipes[h := ps], granted + multiset{h};
    }

    method GetAssociatedInterface(reply: Reply) returns (h: Option<Handle>)
      requires reply.Granted? ==> reply.handle !in live
      modifies this
      ensures reply.Refused? ==> h == None && unchanged(this)
      ensures reply.Granted? ==> h == Some(reply.handle)
      ensures reply.Granted? ==>
        && live == old(live) + {reply.handle} && pipes == old(pipes)[reply.handle := reply.pipes]
        && granted == old(granted) + multiset{reply.handle} && freed == old(freed)
        && fileOpen == old(fileOpen) && closedAfter == old(closedAfter)
    {
      if reply.Refused? {
        return None;
      }
      live := live + {reply.handle};
      pipes := pipes[reply.handle := reply.pipes];
      granted := granted + multiset{reply.handle};
      return Some(reply.handle);
    }

    method QueryPipe(h: Handle, idx: nat) returns (p: Option<Pipe>)
      requires h in live && h in pipes
      ensures p == if idx < |pipes[h]| then Some(pipes[h][idx]) else None
    {
      p := if idx < |pipes[h]| then Some(pipes[h][idx]) else None;
    }

    /** Only a live handle may be freed, so a verified caller never frees one twice. */
    method Free(h: Handle)
      requires h in live
      modifies this
      ensures live == old(live) - {h} && freed == old(freed) + [h]
      ensures pipes == old(pipes) && granted == old(granted)
      ensures fileOpen == old(fileOpen) && closedAfter == old(closedAfter)
    {
      live := live - {h};
      freed := freed + [h];
    }

    method CloseFile()
      requires fileOpen
      modifies this`fileOpen, this`closedAfter
      ensures !fileOpen && closedAfter == Some(|freed|)
    {
      fileOpen, closedAfter := false, Some(|freed|);
    }
  }

  class WinUsbDevice {
    const os: System
    var usbHandle: Handle
    var assocHandles: seq<(byte, Handle)>
    var endpointCache: map<byte, Handle>

    ghost function Abs(): State
      reads this, os
    {
      State(usbHandle, assocHandles, endpointCache, os.live, os.pipes, os.granted, os.freed,
            os.fileOpen, os.closedAfter)
    }

    ghost predicate Valid()
      reads this, os
    {
      Inv(Abs()) && os.fileOpen
    }

    constructor (os: System, h: Handle)
      ensures this.os == os && usbHandle == h && assocHandles == [] && endpointCache == map[]
    {
      this.os := os;
      usbHandle := h;
      assocHandles := [];
      endpointCache := map[];
    }

    /** The part of `open` that opens the file: a second attempt, without write access, follows exactly on a
        denied first one. */
    static method OpenFile(os: System, first: FileReply, second: FileReply) returns (r: Result<()>)
      requires !os.fileOpen
      modifies os`fileOpen
      ensures r.Ok? <==> FileGranted(first, second)
      ensures os.fileOpen <==> r.Ok?
      ensures first.InvalidFile? ==> r == Err(DeviceNotFound)
      ensures first.FileFailed? && !first.accessDenied ==> r == Err(first.error)
      ensures first.FileFailed? && first.accessDenied && second.InvalidFile? ==> r == Err(PermissionDenied)
      ensures first.FileFailed? && first.accessDenied && second.FileFailed? ==> r == Err(second.error)
    {
      os.CreateFile(first);
      if first.FileOpened? {
        return Ok(());
      }
      if first.InvalidFile? {
        return Err(DeviceNotFound);
      }
      if !first.accessDenied {
        return Err(first.error);
      }
      os.CreateFile(second);
      if second.FileFailed? {
        return Err(second.error);
      }
      if second.InvalidFile? {
        return Err(PermissionDenied);
      }
      return Ok(());
    }

    /** `open` on a fresh system. A failing call leaves neither a handle nor the file open. */
    static method Open(first: FileReply, second: FileReply, init: Result<(Handle, seq<Pipe>)>)
      returns (os: System, r: Result<WinUsbDevice>)
      ensures fresh(os)
      ensures r.Ok? <==> FileGranted(first, second) && init.Ok?
      ensures r.Ok? ==>
        && r.value.os == os && r.value.Valid()
        && r.value.Abs() == Opened(init.value.0, init.value.1)
        && r.value.usbHandle == init.value.0 && r.value.assocHandles == [] && r.value.endpointCache == map[]
        && os.live == {init.value.0} && os.freed == []
      ensures r.Err? ==> os.live == {} && os.granted == multiset{} && os.freed == [] && !os.fileOpen
      ensures first.InvalidFile? ==> r == Err(DeviceNotFound)
      ensures first.FileFailed? && !first.accessDenied ==> r == Err(first.error)
      ensures first.FileFailed? && first.accessDenied && second.InvalidFile? ==> r == Err(PermissionDenied)
      ensures first.FileFailed? && first.accessDenied && second.FileFailed? ==> r == Err(second.error)
      ensures FileGranted(first, second) && init.Err? ==> r == Err(init.error)
    {
      os := new System();
      var file := OpenFile(os, first, second);
      if file.Err? {
        return os, Err(file.error);
      }
      if init.Err? {
        os.CloseFile();
        return os, Err(init.error);
      }
      os.Initialize(init.value.0, init.value.1);
      var device := new WinUsbDevice(os, init.value.0);
      assert device.Abs() == Opened(init.value.0, init.value.1);
      assert Held(device.Abs()) == [init.value.0];
      return os, Ok(device);
    }

    /** The pipe with address `endpoint` among the first 32 pipes of `h`: the innermost scan loop. */
    method FindPipe(h: Handle, endpoint: byte) returns (p: Option<Pipe>)
      requires h in os.live && h in os.pipes
      ensures p == FirstPipe(os.pipes[h], 0, endpoint)
    {
      for idx := 0 to 32
        invariant FirstPipe(os.pipes[h], 0, endpoint) == FirstPipe(os.pipes[h], idx, endpoint)
      {
        var info := os.QueryPipe(h, idx);
        if info.None? {
          return None;
        }
        if info.value.id == endpoint {
          return info;
        }
      }
      return None;
    }

    /** `handle_for_endpoint`: the cache first, then the scan. */
    method HandleForEndpoint(endpoint: byte) returns (h: Handle)
      requires Valid()
      ensures h == HandleFor(Abs(), endpoint)
    {
      if endpoint in endpointCache {
        return endpointCache[endpoint];
      }
      if assocHandles == [] {
        return usbHandle;
      }
      var candidates := [usbHandle] + AssocHandles(assocHandles);
      for i := 0 to |candidates|
        invariant candidates == Held(Abs())
        invariant ProbeIndex(os.pipes, candidates, endpoint)
               == i + ProbeIndex(os.pipes, candidates[i..], endpoint)
      {
        assert candidates[i] in Abs().live;
        ProbeStep(os.pipes, candidates, i, endpoint);
        var p := FindPipe(candidates[i], endpoint);
        if p.Some? {
          return candidates[i];
        }
      }
      return usbHandle;
    }

    /** `get_pipe_info`: the scan alone, without the cache. */
    method GetPipeInfo(endpoint: byte) returns (r: Result<Pipe>)
      requires Valid()
      ensures r == PipeInfo(Abs(), endpoint)
    {
      var handles := [usbHandle] + AssocHandles(assocHandles);
      for i := 0 to |handles|
        invariant handles == Held(Abs())
        invariant ProbeIndex(os.pipes, handles, endpoint)
               == i + ProbeIndex(os.pipes, handles[i..], endpoint)
      {
        assert handles[i] in Abs().live;
        ProbeStep(os.pipes, handles, i, endpoint);
        var p := FindPipe(handles[i], endpoint);
        if p.Some? {
          return Ok(p.value);
        }
      }
      return Err(Other("endpoint not found on any claimed interface"));
    }

    /** `build_endpoint_cache`. */
    method BuildEndpointCache(h: Handle)
      requires h in os.live && h in os.pipes
      modifies this`endpointCache
      ensures Abs() == CachePipes(old(Abs()), h)
    {
      ghost var before, ps := endpointCache, os.pipes[h];
      var idx := 0;
      while idx < 32
        invariant idx <= Min(32, |ps|)
        invariant endpointCache == Cached(before, ps, idx, h)
        decreases 32 - idx
      {
        var info := os.QueryPipe(h, idx);
        if info.None? {
          break;
        }
        endpointCache := endpointCache[info.value.id := h];
        idx := idx + 1;
      }
    }

    /** One round of the search: the candidate the system grants is kept, if it is the interface, or freed. */
    method TryCandidate(interface: byte, reply: Reply) returns (granted: bool)
      requires reply.Granted? ==> reply.handle !in os.live
      modifies this`assocHandles, this`endpointCache, os
      ensures granted <==> reply.Granted?
      ensures !granted ==> Abs() == old(Abs())
      ensures granted ==> Abs() == Tried(old(Abs()), interface, reply)
      ensures granted && reply.number != Some(interface) ==> os.live == old(os.live)
    {
      var answer := os.GetAssociatedInterface(reply);
      if answer.None? {
        return false;
      }
      var h := answer.value;
      if reply.number == Some(interface) {
        BuildEndpointCache(h);
        assocHandles := assocHandles + [(interface, h)];
      } else {
        os.Free(h);
        assert os.live == old(os.live);
      }
      return true;
    }

    /** The search of `claim_interface` through the associated interfaces. */
    method SearchAssociated(interface: byte, replies: seq<Reply>) returns (r: Result<()>)
      requires FreshReplies(os.live, replies)
      modifies this`assocHandles, this`endpointCache, os
      ensures (Abs(), r) == Search(old(Abs()), interface, replies[..Min(32, |replies|)])
    {
      ghost var asked := replies[..Min(32, |replies|)];
      ghost var live0, end := os.live, Search(Abs(), interface, asked);
      assert asked[0..] == asked;
      var assocIndex := 0;
      while assocIndex < 32
        invariant 0 <= assocIndex <= |asked|
        invariant os.live == live0
        invariant Searching(end, Abs(), interface, asked, assocIndex)
        decreases 32 - assocIndex
      {
        var reply := if assocIndex < |replies| then replies[assocIndex] else Refused;
        SearchStep(end, Abs(), interface, asked, assocIndex);
        var granted := TryCandidate(interface, reply);
        if !granted {
          break;
        }
        if reply.number == Some(interface) {
          return Ok(());
        }
        assocIndex := assocIndex + 1;
      }
      SearchStep(end, Abs(), interface, asked, assocIndex);
      return Err(Other("interface not found among associated interfaces"));
    }

    /** `claim_interface`. */
    method ClaimInterface(interface: byte, replies: seq<Reply>) returns (r: Result<()>)
      requires Valid() && FreshReplies(os.live, replies)
      modifies this`assocHandles, this`endpointCache, os
      ensures (Abs(), r) == Claim(old(Abs()), interface, replies)
    {
      if interface == 0 {
        HeldDistinct(Abs());
        BuildEndpointCache(usbHandle);
        return Ok(());
      }
      if Position(assocHandles, interface) < |assocHandles| {
        return Ok(());
      }
      r := SearchAssociated(interface, replies);
    }

    /** `release_interface`. */
    method ReleaseInterface(interface: byte)
      requires Valid()
      modifies this`assocHandles, this`endpointCache, os
      ensures Abs() == Release(old(Abs()), interface)
    {
      if interface == 0 {
        return;
      }
      var pos := Position(assocHandles, interface);
      if pos < |assocHandles| {
        var h := assocHandles[pos].1;
        HeldDistinct(Abs());
        assocHandles := assocHandles[..pos] + assocHandles[pos + 1..];
        endpointCache := Evict(endpointCache, h);
        os.Free(h);
      }
    }

    /** The loop of `Drop` over the associated handles, from the back of the list. */
    method FreeAssociated()
      requires Distinct(AssocHandles(assocHandles)) && Elements(AssocHandles(assocHandles)) <= os.live
      modifies os
      ensures os.live == old(os.live) - Elements(AssocHandles(assocHandles))
      ensures os.freed == old(os.freed) + Reverse(AssocHandles(assocHandles))
      ensures os.pipes == old(os.pipes) && os.granted == old(os.granted)
      ensures os.fileOpen == old(os.fileOpen) && os.closedAfter == old(os.closedAfter)
    {
      ghost var hs := AssocHandles(assocHandles);
      var i := |assocHandles|;
      while 0 < i
        invariant 0 <= i <= |assocHandles| == |hs|
        invariant os.live == old(os.live) - Elements(hs[i..])
        invariant os.freed == old(os.freed) + Reverse(hs[i..])
        invariant os.pipes == old(os.pipes) && os.granted == old(os.granted)
        invariant os.fileOpen == old(os.fileOpen) && os.closedAfter == old(os.closedAfter)
      {
        i := i - 1;
        TailStep(hs, i);
        os.Free(assocHandles[i].1);
      }
      assert hs[0..] == hs;
    }

    /** `Drop`: the associated handles, then the primary one, then the file. */
    method Drop()
      requires Valid()
      modifies this`assocHandles, os
      ensures Abs() == Dropped(old(Abs()))
      ensures os.closedAfter == Some(|os.freed|)
    {
      HeldDistinct(Abs());
      FreeAssociated();
      assocHandles := [];
      os.Free(usbHandle);
      os.CloseFile();
      assert Elements(Held(old(Abs()))) == Elements(AssocHandles(old(Abs()).assoc)) + {usbHandle};
    }
  }

  /** A device that has just been opened: the primary handle is the only live one. */
  function Opened(h: Handle, ps: seq<Pipe>): State {
    State(h, [], map[], {h}, map[h := ps], multiset{h}, [], true, None)
  }
}
