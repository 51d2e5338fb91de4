/**
 The Linux descriptor read and the endpoint lookup from end to end: what a device delivers, against what its
 user is told. The laws do not mention the steps of the read.
 */
module LinuxReads {
  import opened UsbBase
  import opened DescriptorChain
  import opened ConfigDescriptor
  import opened ConfigLaws
  import opened LinuxDevice

  // ---------------------------------------------------------------------------------------------
  // The read
  // ---------------------------------------------------------------------------------------------

  /** `buf` is a buffer of `total` bytes that holds what was delivered of `data`, and zeros behind it. */
  ghost predicate Holds(buf: seq<byte>, data: seq<byte>, total: nat) {
    && |buf| == total
    && (forall i :: 0 <= i < total && i < |data| ==> buf[i] == data[i])
    && (forall i :: |data| <= i < total ==> buf[i] == 0)
  }

  lemma FilledHolds(data: seq<byte>, total: nat, buf: seq<byte>)
    ensures Holds(buf, data, total) <==> buf == Filled(data, total)
  {
    var f := Filled(data, total);
    assert Holds(f, data, total);
    if Holds(buf, data, total) {
      assert forall i :: 0 <= i < total ==> buf[i] == f[i];
    }
  }

  /** The first request is answered with a header that announces at least itself. */
  ghost predicate HeaderGiven(script: seq<Reply>) {
    && script != [] && script[0].Delivered? && 9 <= |script[0].data|
    && 9 <= (script[0].data[2] as int) + 0x100 * (script[0].data[3] as int)
  }

  ghost predicate BothGiven(script: seq<Reply>) {
    HeaderGiven(script) && 2 <= |script| && script[1].Delivered?
  }

  function Announced(script: seq<Reply>): int
    requires HeaderGiven(script)
  {
    (script[0].data[2] as int) + 0x100 * (script[0].data[3] as int)
  }

  /**
   The read, case by case. Without a usable header it ends after one request, otherwise after two. With both
   answers its result is that of parsing all announced bytes, those delivered and zeros for the rest.
   */
  lemma ReadIs(script: seq<Reply>, buf: seq<byte>)
    ensures var (r, requests) := ReadConfig(script);
            && requests == (if HeaderGiven(script) then 2 else 1)
            && (script == [] ==> r == Err(DeviceNotFound))
            && (script != [] && script[0].Refused? ==> r == Err(script[0].error))
            && (script != [] && script[0].Delivered? && !HeaderGiven(script) ==> r == Err(InvalidDescriptor))
            && (HeaderGiven(script) && |script| == 1 ==> r == Err(DeviceNotFound))
            && (HeaderGiven(script) && 2 <= |script| && script[1].Refused? ==> r == Err(script[1].error))
            && (BothGiven(script) && Holds(buf, script[1].data, Announced(script)) ==> r == Parse(buf))
  {
    if BothGiven(script) {
      FilledHolds(script[1].data, Announced(script), buf);
    }
  }

  /** The read succeeds if and only if both requests are answered, the first with a header that announces at
      least itself, and the second with the type byte of a configuration. */
  lemma ReadSucceedsExactly(script: seq<Reply>)
    ensures ReadConfig(script).0.Ok? <==>
            BothGiven(script) && 2 <= |script[1].data| && script[1].data[1] == 0x02
  {
    if BothGiven(script) {
      var buf := Filled(script[1].data, Announced(script));
      FilledHolds(script[1].data, Announced(script), buf);
      ReadIs(script, buf);
    }
  }

  /** After the read, what it has asked for is used up, and no more. */
  lemma ReadUsesRequests(script: seq<Reply>)
    requires 2 <= |script|
    ensures After(script, 1) == script[1..] && After(script, 2) == script[2..]
  {
    assert After(script, 1) == After(Rest(script), 0);
    assert After(script, 2) == After(Rest(script), 1) == After(Rest(Rest(script)), 0);
  }

  /** A device that answers both requests with its configuration. */
  function Honest(c: Config, later: seq<Reply>): seq<Reply> {
    [Delivered(Encode(c)), Delivered(Encode(c))] + later
  }

  /** From such a device the configuration is read as it is, after two requests. */
  lemma HonestDeviceIsRead(c: Config, later: seq<Reply>)
    requires c.totalLength == |Encode(c)|
    ensures ReadConfig(Honest(c, later)) == (Ok(c), 2) && After(Honest(c, later), 2) == later
  {
    var script, buf := Honest(c, later), Encode(c);
    EncodedHeader(c, []);
    assert buf + [] == buf;
    assert buf[2] == buf[..9][2] && buf[3] == buf[..9][3];
    assert Announced(script) == |buf| && Holds(buf, buf, |buf|);
    ReadIs(script, buf);
    RoundTrip(c);
    ReadUsesRequests(script);
    assert script[2..] == later;
  }

  // ---------------------------------------------------------------------------------------------
  // The cache
  // ---------------------------------------------------------------------------------------------

  /** Endpoint `j` of interface descriptor `i` has address `e`. */
  ghost predicate At(ifs: seq<Interface>, i: int, j: int, e: byte) {
    0 <= i < |ifs| && 0 <= j < |ifs[i].endpoints| && ifs[i].endpoints[j].address == e
  }

  /** And no later endpoint has it, neither of this interface descriptor nor of a later one. */
  ghost predicate LastAt(ifs: seq<Interface>, i: int, j: int, e: byte) {
    && At(ifs, i, j, e)
    && (forall k :: j < k ==> !At(ifs, i, k, e))
    && (forall h, k :: i < h ==> !At(ifs, h, k, e))
  }

  lemma {:induction false} EnteredIs(es: seq<Endpoint>, e: byte)
    ensures e in Entered(es) <==> exists j :: 0 <= j < |es| && es[j].address == e
    ensures forall j :: 0 <= j < |es| && es[j].address == e && (forall k :: j < k < |es| ==> es[k].address != e) ==>
              Entered(es)[e] == InfoOf(es[j])
  {
    CacheHoldsLast(es, e);
    if j :| 0 <= j < |es| && es[j].address == e {
      LastExists(es, e, j);
    }
    forall j: nat | IsLast(es, j, e) ensures es[j].address == e {}
  }

  lemma {:induction false} LastExists(es: seq<Endpoint>, e: byte, j: nat)
    requires j < |es| && es[j].address == e
    ensures exists k: nat :: IsLast(es, k, e)
    decreases |es| - j
  {
    if !IsLast(es, j, e) {
      var k :| j < k < |es| && es[k].address == e;
      LastExists(es, e, k);
    }
  }

  /** The information about an endpoint, field by field. */
  ghost predicate Tells(info: EndpointInfo, ep: Endpoint) {
    && info.pipeId == ep.address && info.number == ep.address % 0x10
    && (info.direction == In <==> 0x80 <= ep.address)
    && (info.transferType == Control <==> ep.attributes % 4 == 0)
    && (info.transferType == Isochronous <==> ep.attributes % 4 == 1)
    && (info.transferType == Bulk <==> ep.attributes % 4 == 2)
    && (info.transferType == Interrupt <==> ep.attributes % 4 == 3)
    && info.maxPacketSize == ep.maxPacketSize && info.interval == ep.interval
  }

  /** Without a reserved bit in it, the address comes back from direction and number. */
  lemma AddressFromInfo(ep: Endpoint)
    requires ep.address % 0x80 < 0x10
    ensures var info := InfoOf(ep);
            Tells(info, ep) && info.number + (if info.direction == In then 0x80 else 0) == ep.address
  {
  }

  /**
   The cache of a configuration. It has an address exactly when some endpoint of some interface descriptor has it,
   and tells about it what the last of them says, in descriptor order over all alternate settings.
   */
  lemma {:induction false} CacheTellsLast(ifs: seq<Interface>, e: byte, i: int, j: int)
    ensures var m := Entered(AllEndpoints(ifs));
            && (e in m <==> exists h, k :: At(ifs, h, k, e))
            && (LastAt(ifs, i, j, e) ==> Tells(m[e], ifs[i].endpoints[j]))
    decreases |ifs|
  {
    if ifs != [] {
      var n := |ifs| - 1;
      var front, es := ifs[..n], ifs[n].endpoints;
      EnteredConcat(AllEndpoints(front), es);
      EnteredIs(es, e);
      CacheTellsLast(front, e, i, j);
      AtFront(ifs, e);
      if i < n && LastAt(ifs, i, j, e) {
        assert forall k :: !At(ifs, n, k, e);
        assert forall k :: 0 <= k < |es| ==> es[k].address == e ==> At(ifs, n, k, e);
        assert LastAt(front, i, j, e);
      } else if i == n && LastAt(ifs, i, j, e) {
        assert forall k :: j < k < |es| ==> (es[k].address == e <==> At(ifs, n, k, e));
      }
    }
  }

  lemma AtFront(ifs: seq<Interface>, e: byte)
    requires ifs != []
    ensures var n := |ifs| - 1;
            && (forall h, k :: h < n ==> (At(ifs, h, k, e) <==> At(ifs[..n], h, k, e)))
            && (forall h, k :: At(ifs[..n], h, k, e) ==> At(ifs, h, k, e))
            && (forall k :: 0 <= k < |ifs[n].endpoints| && ifs[n].endpoints[k].address == e ==> At(ifs, n, k, e))
            && (forall h, k :: At(ifs, h, k, e) ==> h < n || (h == n && 0 <= k < |ifs[n].endpoints|
                                                              && ifs[n].endpoints[k].address == e))
  {
  }

  /**
   The first lookup on a device that delivers its configuration: two requests, and the answer is what the last
   endpoint with the address says, or that there is none.
   */
  method LookUp(d: Device, e: byte, c: Config, later: seq<Reply>) returns (r: Result<EndpointInfo>)
    requires d.Valid() && d.endpointCache == map[] && d.fs.script == Honest(c, later)
    requires c.totalLength == |Encode(c)|
    modifies d, d.fs
    ensures d.Valid() && d.fs.script == later
    ensures r.Ok? <==> exists h, k :: At(c.interfaces, h, k, e)
    ensures r.Err? ==> r.error == Other("endpoint not found")
    ensures forall i, j :: LastAt(c.interfaces, i, j, e) ==> r.Ok? && Tells(r.value, c.interfaces[i].endpoints[j])
  {
    HonestDeviceIsRead(c, later);
    r := d.GetPipeInfo(e);
    forall i, j
      ensures var m := CacheOf(Some(c));
              && (e in m <==> exists h, k :: At(c.interfaces, h, k, e))
              && (LastAt(c.interfaces, i, j, e) ==> e in m && Tells(m[e], c.interfaces[i].endpoints[j]))
    {
      CacheTellsLast(c.interfaces, e, i, j);
    }
  }
}
