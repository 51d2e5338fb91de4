/**
 The Linux backend: the two-pass read of configuration 0, the endpoint cache built from it, and the
 lookup that refreshes the cache on a miss.
 */
module LinuxDevice {
  import opened UsbBase
  import opened DescriptorChain
  import opened ConfigDescriptor
  import opened ConfigLaws

  /** What the kernel answers to one control request: an error, or the bytes the device delivered. */
  datatype Reply = Refused(error: UsbError) | Delivered(data: seq<byte>)

  datatype Direction = In | Out
  datatype TransferType = Control | Isochronous | Bulk | Interrupt

  datatype EndpointInfo = EndpointInfo(
    pipeId: byte,
    number: byte,
    direction: Direction,
    transferType: TransferType,
    maxPacketSize: u16,
    interval: byte)

  /** `EndpointInfo::new`: the address and attribute bytes taken apart. */
  function InfoOf(e: Endpoint): EndpointInfo {
    EndpointInfo(
      e.address,
      e.address % 0x10,
      if 0x80 <= e.address then In else Out,
      match e.attributes % 4 { case 0 => Control case 1 => Isochronous case 2 => Bulk case _ => Interrupt },
      e.maxPacketSize,
      e.interval)
  }

  // ---------------------------------------------------------------------------------------------
  // Control requests
  // ---------------------------------------------------------------------------------------------

  function Next(script: seq<Reply>): Reply {
    if script == [] then Refused(DeviceNotFound) else script[0]
  }

  function Rest(script: seq<Reply>): seq<Reply> {
    if script == [] then [] else script[1..]
  }

  /** A zeroed buffer of `n` bytes after the kernel copied at most `n` bytes of `data` to its front. */
  function Filled(data: seq<byte>, n: nat): seq<byte> {
    if |data| <= n then data + Zeros(n - |data|) else data[..n]
  }

  /** The kernel side: a script of the answers it is going to give. */
  class UsbFs {
    var script: seq<Reply>

    constructor (answers: seq<Reply>)
      ensures script == answers
    {
      script := answers;
    }

    /** `raw_control` on a zeroed buffer. */
    method RawControl(buf: array<byte>) returns (r: Result<nat>)
      requires buf[..] == Zeros(buf.Length)
      modifies this, buf
      ensures script == Rest(old(script))
      ensures match Next(old(script))
              case Refused(e) => r == Err(e)
              case Delivered(data) =>
                r == Ok(Min(|data|, buf.Length)) && buf[..] == Filled(data, buf.Length)
    {
      var reply := Next(script);
      script := Rest(script);
      if reply.Refused? {
        return Err(reply.error);
      }
      var n := Min(|reply.data|, buf.Length);
      for i := 0 to n
        invariant script == Rest(old(script))
        invariant forall j :: 0 <= j < i ==> buf[j] == reply.data[j]
        invariant forall j :: i <= j < buf.Length ==> buf[j] == 0
      {
        buf[i] := reply.data[i];
      }
      assert buf[..] == Filled(reply.data, buf.Length);
      return Ok(n);
    }
  }

  /** The outcome of the two-pass read, and the number of requests it makes. */
  function ReadConfig(script: seq<Reply>): (Result<Config>, nat) {
    match Next(script)
    case Refused(e) => (Err(e), 1)
    case Delivered(hdr) =>
      if |hdr| < 9 then (Err(InvalidDescriptor), 1)
      else
        var total := Le16(hdr[2], hdr[3]);
        if total < 9 then (Err(InvalidDescriptor), 1)
        else
          match Next(Rest(script))
          case Refused(e) => (Err(e), 2)
          case Delivered(data) => (Parse(Filled(data, total)), 2)
  }

  function After(script: seq<Reply>, requests: nat): seq<Reply> {
    if requests == 0 then script else After(Rest(script), requests - 1)
  }

  // ---------------------------------------------------------------------------------------------
  // The endpoint cache
  // ---------------------------------------------------------------------------------------------

  /** All endpoints of a configuration in descriptor order, over all alternate settings. */
  function AllEndpoints(ifs: seq<Interface>): seq<Endpoint> {
    if ifs == [] then [] else AllEndpoints(ifs[..|ifs| - 1]) + ifs[|ifs| - 1].endpoints
  }

  /** Entering endpoints one by one: a later one replaces an earlier one with its address. */
  function Entered(es: seq<Endpoint>): map<byte, EndpointInfo> {
    if es == [] then map[] else Entered(es[..|es| - 1])[es[|es| - 1].address := InfoOf(es[|es| - 1])]
  }

  function CacheOf(c: Option<Config>): map<byte, EndpointInfo> {
    if c.None? then map[] else Entered(AllEndpoints(c.value.interfaces))
  }

  /** Index `i` names the last endpoint in `es` with address `e`. */
  ghost predicate IsLast(es: seq<Endpoint>, i: nat, e: byte) {
    && i < |es| && es[i].address == e
    && forall j :: i < j < |es| ==> es[j].address != e
  }

  /** The cache answers for an address exactly what the last endpoint with it says. */
  lemma {:induction false} CacheHoldsLast(es: seq<Endpoint>, e: byte)
    ensures e in Entered(es) <==> exists i: nat :: IsLast(es, i, e)
    ensures forall i: nat :: IsLast(es, i, e) ==> Entered(es)[e] == InfoOf(es[i])
    decreases |es|
  {
    if es != [] {
      var n := |es| - 1;
      CacheHoldsLast(es[..n], e);
      if es[n].address == e {
        assert IsLast(es, n, e);
      } else {
        forall i: nat
          ensures IsLast(es, i, e) <==> IsLast(es[..n], i, e)
        {
        }
      }
    }
  }

  lemma EnteredSnoc(es: seq<Endpoint>, e: Endpoint)
    ensures Entered(es + [e]) == Entered(es)[e.address := InfoOf(e)]
  {
    assert (es + [e])[..|es|] == es;
  }

  lemma {:induction false} EnteredConcat(a: seq<Endpoint>, b: seq<Endpoint>)
    ensures Entered(a + b) == Entered(a) + Entered(b)
    decreases |b|
  {
    if b == [] {
      assert a + b == a;
    } else {
      var front, e := b[..|b| - 1], b[|b| - 1];
      EnteredConcat(a, front);
      EnteredSnoc(a + front, e);
      assert a + b == a + front + [e];
    }
  }

  lemma AllEndpointsSnoc(ifs: seq<Interface>, i: nat)
    requires i < |ifs|
    ensures AllEndpoints(ifs[..i + 1]) == AllEndpoints(ifs[..i]) + ifs[i].endpoints
  {
    assert ifs[..i + 1][..i] == ifs[..i];
  }

  lemma EnteredNext(before: seq<Endpoint>, eps: seq<Endpoint>, j: nat)
    requires j < |eps|
    ensures Entered(before + eps[..j + 1]) == Entered(before + eps[..j])[eps[j].address := InfoOf(eps[j])]
  {
    EnteredSnoc(before + eps[..j], eps[j]);
    assert before + eps[..j + 1] == before + eps[..j] + [eps[j]];
  }

  /** The inner loop that fills the new map: the endpoints of one interface. */
  method EnterEndpoints(m0: map<byte, EndpointInfo>, ghost before: seq<Endpoint>, eps: seq<Endpoint>)
    returns (m: map<byte, EndpointInfo>)
    requires m0 == Entered(before)
    ensures m == Entered(before + eps)
  {
    m := m0;
    assert before + eps[..0] == before;
    for j := 0 to |eps|
      invariant m == Entered(before + eps[..j])
    {
      EnteredNext(before, eps, j);
      m := m[eps[j].address := InfoOf(eps[j])];
    }
    assert eps[..|eps|] == eps;
  }

  /** The outer loop: all interfaces, in descriptor order. */
  method Enter(interfaces: seq<Interface>) returns (m: map<byte, EndpointInfo>)
    ensures m == Entered(AllEndpoints(interfaces))
  {
    m := map[];
    for i := 0 to |interfaces|
      invariant m == Entered(AllEndpoints(interfaces[..i]))
    {
      AllEndpointsSnoc(interfaces, i);
      m := EnterEndpoints(m, AllEndpoints(interfaces[..i]), interfaces[i].endpoints);
    }
    assert interfaces[..|interfaces|] == interfaces;
  }

  class Device {
    const fs: UsbFs
    var endpointCache: map<byte, EndpointInfo>
    /** Configuration 0 as it was last read in full. */
    ghost var parsed: Option<Config>

    ghost predicate Valid()
      reads this
    {
      endpointCache == CacheOf(parsed)
    }

    constructor (fs: UsbFs)
      ensures Valid() && this.fs == fs && parsed == None
    {
      this.fs := fs;
      endpointCache := map[];
      parsed := None;
    }

    /** `read_config_descriptor_impl`. */
    method ReadConfigDescriptor() returns (r: Result<Config>)
      modifies fs
      ensures r == ReadConfig(old(fs.script)).0
      ensures fs.script == After(old(fs.script), ReadConfig(old(fs.script)).1)
    {
      ghost var s := fs.script;
      assert After(s, 1) == After(Rest(s), 0) && After(s, 2) == After(Rest(s), 1) == After(Rest(Rest(s)), 0);
      var hdr := new byte[9](_ => 0);
      var n :- fs.RawControl(hdr);
      if n < 9 {
        return Err(InvalidDescriptor);
      }
      assert hdr[2] == hdr[..][2] && hdr[3] == hdr[..][3];
      var totalLen := Le16(hdr[2], hdr[3]);
      if totalLen < 9 {
        return Err(InvalidDescriptor);
      }
      var full := new byte[totalLen](_ => 0);
      var _ :- fs.RawControl(full);
      r := FromBytes(full[..]);
    }

    /** `refresh_endpoint_cache`: a failed read leaves the old map in place. */
    method RefreshEndpointCache() returns (r: Result<()>)
      requires Valid()
      modifies this, fs
      ensures Valid()
      ensures var (cfg, requests) := ReadConfig(old(fs.script));
              && fs.script == After(old(fs.script), requests)
              && (cfg.Ok? ==> r == Ok(()) && parsed == Some(cfg.value))
              && (cfg.Err? ==> r == Err(cfg.error) && parsed == old(parsed) && endpointCache == old(endpointCache))
    {
      var cfg :- ReadConfigDescriptor();
      endpointCache := Enter(cfg.interfaces);
      parsed := Some(cfg);
      return Ok(());
    }

    /** `get_pipe_info`: a hit asks the device nothing, a miss refreshes exactly once. */
    method GetPipeInfo(endpoint: byte) returns (r: Result<EndpointInfo>)
      requires Valid()
      modifies this, fs
      ensures Valid()
      ensures endpoint in old(endpointCache) ==>
        && r == Ok(old(endpointCache)[endpoint])
        && fs.script == old(fs.script) && parsed == old(parsed) && endpointCache == old(endpointCache)
      ensures endpoint !in old(endpointCache) ==>
        var (cfg, requests) := ReadConfig(old(fs.script));
        && fs.script == After(old(fs.script), requests)
        && (cfg.Err? ==> r == Err(cfg.error) && parsed == old(parsed))
        && (cfg.Ok? ==>
              && parsed == Some(cfg.value)
              && r == if endpoint in CacheOf(parsed) then Ok(CacheOf(parsed)[endpoint])
                      else Err(Other("endpoint not found")))
    {
      if endpoint in endpointCache {
        return Ok(endpointCache[endpoint]);
      }
      var _ :- RefreshEndpointCache();
      if endpoint in endpointCache {
        return Ok(endpointCache[endpoint]);
      }
      return Err(Other("endpoint not found"));
    }

    /** `set_alternate_setting`: the refresh afterwards may fail without the call failing. */
    method SetAlternateSetting(answer: Result<()>) returns (r: Result<()>)
      requires Valid()
      modifies this, fs
      ensures Valid() && r == answer
      ensures answer.Err? ==> fs.script == old(fs.script) && parsed == old(parsed)
      ensures answer.Ok? ==>
        var (cfg, requests) := ReadConfig(old(fs.script));
        && fs.script == After(old(fs.script), requests)
        && parsed == if cfg.Ok? then Some(cfg.value) else old(parsed)
    {
      if answer.Err? {
        return answer;
      }
      var _ := RefreshEndpointCache();
      return answer;
    }
  }

  // ---------------------------------------------------------------------------------------------
  // A device that delivers fewer bytes than it announced
  // ---------------------------------------------------------------------------------------------

  /** What the kernel passes on of an answer: at most as many bytes as were asked for. */
  function Delivery(data: seq<byte>, total: u16): seq<byte> {
    data[..Min(|data|, total)]
  }

  /** Zero bytes behind the delivery that the parser takes for part of the chain: up to the announced total
      and the end of the buffer, whichever comes first. */
  function Padding(got: seq<byte>, total: u16): nat
    requires 9 <= |got| <= total
  {
    var end := Min(Le16(got[2], got[3]), total);
    if |got| <= end then end - |got| else 0
  }

  /** The record that the zeros complete, if there is one. */
  function Phantom(got: seq<byte>, total: u16): (phantom: seq<seq<byte>>)
    requires 9 <= |got| <= total
    ensures |phantom| <= 1 && AllRecords(phantom, 2)
  {
    RecordsFromBoundary(ChainOf(got), |Records(ChainOf(got), 2)|, 2);
    assert Records(ChainOf(got), 2)[..|Records(ChainOf(got), 2)|] == Records(ChainOf(got), 2);
    CutRecord(ChainOf(got)[|Flatten(Records(ChainOf(got), 2))|..], Padding(got, total), 2)
  }

  lemma ChainOfFilled(got: seq<byte>, total: u16)
    requires 9 <= |got| <= total
    ensures var buf := Filled(got, total);
            && |buf| == total && buf[..9] == got[..9]
            && ChainOf(buf) == ChainOf(got) + Zeros(Padding(got, total))
  {
    var buf := Filled(got, total);
    assert forall i :: 0 <= i < |got| ==> buf[i] == got[i];
    assert buf[2] == got[2] && buf[3] == got[3];
  }

  /**
   Short second pass. The buffer is zeroed and the count of the second pass ignored, so a device that
   stops early is parsed as if it had sent the records that are complete in the delivered bytes and at
   most one more: the record cut by the end of the delivery, filled up with zeros, when its announced
   length still ends inside the padding. Whatever total the second answer announces itself.
   */
  lemma ShortSecondPass(data: seq<byte>, total: u16)
    requires 9 <= |data| && 9 <= total && data[1] == CONFIG
    ensures var got, buf := Delivery(data, total), Filled(data, total);
            && Parse(got).Ok? && Parse(buf).Ok?
            && var rs, phantom := Records(ChainOf(got), 2), Phantom(got, total);
            && Parse(got).value.interfaces == Build(rs)
            && Parse(buf) == Ok(Parse(got).value.(interfaces := Build(rs + phantom)))
            && TreeGrows(Build(rs), Build(rs + phantom))
  {
    var got := Delivery(data, total);
    assert Filled(data, total) == Filled(got, total);
    var buf := Filled(got, total);
    ChainOfFilled(got, total);
    assert forall i :: 0 <= i < 9 ==> buf[i] == buf[..9][i] == got[..9][i];
    RecordsOfPadded(ChainOf(got), Padding(got, total), 2);
    var rs, phantom := Records(ChainOf(got), 2), Phantom(got, total);
    BuildGrows(rs + phantom, |rs|);
    assert (rs + phantom)[..|rs|] == rs;
  }

  /**
   Agreement. The result is that of the delivered bytes exactly when no record is completed by the zeros,
   or the completed one has no effect: it is of no known kind, finds nothing to hang on, or repeats what
   is there.
   */
  lemma ShortPassAgreesExactly(data: seq<byte>, total: u16)
    requires 9 <= |data| && 9 <= total && data[1] == CONFIG
    ensures var got := Delivery(data, total);
            var phantom := Phantom(got, total);
            Parse(Filled(data, total)) == Parse(got) <==>
            phantom == [] || HasNoEffect(Parse(got).value.interfaces, phantom[0])
  {
    ShortSecondPass(data, total);
    var got := Delivery(data, total);
    var rs, phantom := Records(ChainOf(got), 2), Phantom(got, total);
    if phantom == [] {
      assert rs + phantom == rs;
    } else {
      assert IsRecord(phantom[0], 2);
      assert phantom == [phantom[0]];
      BuildSnoc(rs, phantom[0]);
      AttachChangesNothing(Build(rs), phantom[0]);
    }
  }

  /** A second pass that does not even deliver the nine bytes of the header: the delivered bytes are no
      configuration, but with its type byte among them the zeroed buffer is one, without interfaces. */
  lemma TinySecondPass(data: seq<byte>, total: u16)
    requires |data| < 9 <= total
    ensures Parse(data).Err?
    ensures Parse(Filled(data, total)).Ok? <==> 2 <= |data| && data[1] == CONFIG
    ensures Parse(Filled(data, total)).Ok? ==> Parse(Filled(data, total)).value.interfaces == []
  {
    var buf := Filled(data, total);
    assert |buf| == total;
    assert forall i :: |data| <= i < total ==> buf[i] == 0;
    assert Blocked(ChainOf(buf), 2);
  }

  /** The failure is real: two bytes of an interface record are delivered, and an interface of zeros is parsed. */
  lemma PhantomInterface()
    ensures var data := [9, 2, 18, 0, 1, 1, 0, 128, 50, 9, 4];
            && Parse(Delivery(data, 18)).Ok? && Parse(Delivery(data, 18)).value.interfaces == []
            && Parse(Filled(data, 18)).Ok?
            && Parse(Filled(data, 18)).value.interfaces == [Interface(0, 0, 0, 0, 0, 0, 0, [], None)]
  {
    var data: seq<byte> := [9, 2, 18, 0, 1, 1, 0, 128, 50, 9, 4];
    ShortSecondPass(data, 18);
    assert Delivery(data, 18) == data;
    var r := [9, 4] + Zeros(7);
    assert ChainOf(data) == [9, 4] && Records([9, 4], 2) == [];
    assert Phantom(data, 18) == [r];
    assert [] + [r] == [r];
    assert Build([]) == [];
    BuildSnoc([], r);
  }
}
