/**
 Records longer than their standard form. Both parsers read the standard fields of a record and leave the
 bytes behind them alone, so a device may append bytes of its own to any record it describes, as the audio
 class does to its endpoints and HID devices with several descriptors do.
 */
module ConfigLongRecords {
  import opened UsbBase
  import opened DescriptorChain
  import opened ConfigDescriptor
  import opened ConfigLaws
  import B = BosDescriptor

  /** `p` is the record `r` with further bytes behind it, and its length byte raised accordingly. */
  ghost predicate Lengthens(r: seq<byte>, p: seq<byte>) {
    1 <= |r| <= |p| && p[0] == |p| && p[1..|r|] == r[1..]
  }

  /** `r` has all standard fields of its type, if the type is a known one. */
  predicate Standard(r: seq<byte>) {
    && 2 <= |r|
    && (r[1] == INTERFACE ==> 9 <= |r|)
    && (r[1] == ENDPOINT ==> 7 <= |r|)
    && (r[1] == HID ==> 9 <= |r|)
    && (r[1] == COMPANION ==> 6 <= |r|)
  }

  /** Bytes behind the standard fields of a record do not matter, whatever the record. */
  lemma AttachLong(ifs: seq<Interface>, r: seq<byte>, p: seq<byte>)
    requires Standard(r) && Lengthens(r, p)
    ensures Attach(ifs, p) == Attach(ifs, r)
  {
    forall k | 1 <= k < |r|
      ensures p[k] == r[k]
    {
      assert p[1..|r|][k - 1] == r[1..][k - 1];
    }
  }

  /** What a HID and a companion record of any length leave, byte by byte. */
  lemma AttachedFields(ifs: seq<Interface>, r: seq<byte>)
    requires ifs != []
    ensures |Attach(ifs, r)| == |ifs| || (9 <= |r| && r[1] == 0x04)
    ensures 9 <= |r| && r[1] == 0x21 ==>
      var h := Attach(ifs, r)[|ifs| - 1].hid;
      && h.Some?
      && h.value.bcdHid == (r[2] as int) + 0x100 * (r[3] as int)
      && h.value.countryCode == r[4] && h.value.numDescriptors == r[5] && h.value.descriptorType == r[6]
      && h.value.descriptorLength == (r[7] as int) + 0x100 * (r[8] as int)
    ensures 6 <= |r| && r[1] == 0x30 && ifs[|ifs| - 1].endpoints != [] ==>
      var es := Attach(ifs, r)[|ifs| - 1].endpoints;
      && |es| == |ifs[|ifs| - 1].endpoints|
      && var s := es[|es| - 1].companion;
         && s.Some? && s.value.maxBurst == r[2] && s.value.attributes == r[3]
         && s.value.bytesPerInterval == (r[4] as int) + 0x100 * (r[5] as int)
  {
  }

  ghost predicate AllLengthen(rs: seq<seq<byte>>, ps: seq<seq<byte>>) {
    |ps| == |rs| && forall i :: 0 <= i < |rs| ==> Lengthens(rs[i], ps[i])
  }

  lemma {:induction false} BuildLong(rs: seq<seq<byte>>, ps: seq<seq<byte>>)
    requires AllLengthen(rs, ps) && forall i :: 0 <= i < |rs| ==> Standard(rs[i])
    ensures Build(ps) == Build(rs) && AllRecords(ps, 2)
    decreases |rs|
  {
    if rs != [] {
      var n := |rs| - 1;
      BuildLong(rs[..n], ps[..n]);
      AttachLong(Build(rs[..n]), rs[n], ps[n]);
      assert IsRecord(ps[n], 2) && ps == ps[..n] + [ps[n]];
    }
  }

  lemma {:induction false} EndpointRecordsStandard(es: seq<Endpoint>)
    ensures forall i :: 0 <= i < |AllEndpointRecords(es)| ==> Standard(AllEndpointRecords(es)[i])
    decreases |es|
  {
    if es != [] {
      EndpointRecordsStandard(es[..|es| - 1]);
    }
  }

  lemma {:induction false} TreeRecordsStandard(ifs: seq<Interface>)
    ensures forall i :: 0 <= i < |TreeRecords(ifs)| ==> Standard(TreeRecords(ifs)[i])
    decreases |ifs|
  {
    if ifs != [] {
      TreeRecordsStandard(ifs[..|ifs| - 1]);
      EndpointRecordsStandard(ifs[|ifs| - 1].endpoints);
    }
  }

  /** A configuration on the wire, each of its records in any long form, behind any first byte of the header. */
  function EncodeLong(c: Config, first: byte, ps: seq<seq<byte>>): seq<byte> {
    [first] + Header(c)[1..] + Flatten(ps)
  }

  lemma LongHeader(c: Config, first: byte, ps: seq<seq<byte>>, junk: seq<byte>)
    ensures var buf := EncodeLong(c, first, ps) + junk;
            && 9 <= |buf| == 9 + |Flatten(ps)| + |junk|
            && (forall k :: 1 <= k < 9 ==> buf[k] == Header(c)[k])
            && buf[9..] == Flatten(ps) + junk
  {
    var buf := EncodeLong(c, first, ps) + junk;
    assert buf == ([first] + Header(c)[1..]) + (Flatten(ps) + junk);
  }

  lemma LongChain(c: Config, first: byte, ps: seq<seq<byte>>, junk: seq<byte>)
    requires AllRecords(ps, 2)
    requires 9 + |Flatten(ps)| == c.totalLength || (9 + |Flatten(ps)| < c.totalLength && junk == [])
    ensures var buf := EncodeLong(c, first, ps) + junk;
            9 <= |buf| && Records(ChainOf(buf), 2) == ps
  {
    LongHeader(c, first, ps, junk);
    var buf := EncodeLong(c, first, ps) + junk;
    assert Le16(buf[2], buf[3]) == c.totalLength;
    assert ChainOf(buf) == buf[9..][..|Flatten(ps)|] == Flatten(ps) + [];
    RecordsOfConcat(ps, [], 2);
    assert ps + Records([], 2) == ps;
  }

  /**
   Round trip of long records. Every configuration whose records are written with any bytes behind their
   standard fields, and whose total covers them, is read back as it is, with any bytes behind the total.
   */
  lemma LongRecordsRoundTrip(c: Config, first: byte, ps: seq<seq<byte>>, junk: seq<byte>)
    requires AllLengthen(TreeRecords(c.interfaces), ps)
    requires 9 + |Flatten(ps)| == c.totalLength || (9 + |Flatten(ps)| < c.totalLength && junk == [])
    ensures Parse(EncodeLong(c, first, ps) + junk) == Ok(c)
  {
    assert AllRecords(ps, 2) && Build(ps) == c.interfaces by {
      TreeRecordsStandard(c.interfaces);
      BuildLong(TreeRecords(c.interfaces), ps);
      BuildTreeRecords(c.interfaces);
    }
    LongHeader(c, first, ps, junk);
    LongChain(c, first, ps, junk);
    ParseByParts(EncodeLong(c, first, ps) + junk, c);
  }

  lemma ParseByParts(buf: seq<byte>, c: Config)
    requires 9 <= |buf| && forall k :: 1 <= k < 9 ==> buf[k] == Header(c)[k]
    requires Build(Records(ChainOf(buf), 2)) == c.interfaces
    ensures Parse(buf) == Ok(c)
  {
    assert Le16(buf[2], buf[3]) == c.totalLength;
  }

  // ---------------------------------------------------------------------------------------------
  // The same for device capabilities
  // ---------------------------------------------------------------------------------------------

  /** `p` is a record of the known capability `c`, possibly longer than standard and with any reserved byte;
      an unknown capability has only its exact record, all bytes of which belong to its data. */
  ghost predicate IsFormOf(p: seq<byte>, c: B.Capability)
    requires B.Fits(c)
  {
    if c.Unknown? then B.Canonical(c) && p == B.CapabilityRecord(c)
    else if c.ContainerId? then 4 <= |p| && Lengthens(B.CapabilityRecord(c)[3 := p[3]], p)
    else Lengthens(B.CapabilityRecord(c), p)
  }

  lemma LongCapability(p: seq<byte>, c: B.Capability)
    requires B.Fits(c) && IsFormOf(p, c)
    ensures IsRecord(p, 3) && p[1] == B.DEVICE_CAPABILITY && B.CapabilityAt(p) == c
  {
    B.CapabilityRoundTrip(c);
    if !c.Unknown? {
      var r := if c.ContainerId? then B.CapabilityRecord(c)[3 := p[3]] else B.CapabilityRecord(c);
      forall k | 1 <= k < |r|
        ensures p[k] == r[k]
      {
        assert p[1..|r|][k - 1] == r[1..][k - 1];
      }
      match c
      case Usb20Extension(a) => assert p[3..7] == a;
      case SuperSpeedUsb(_, _, _, _, _) =>
      case ContainerId(id) => assert p[4..20] == id;
    }
  }

  /** The records `ps` describe the capabilities `cs`, each in one of its forms. */
  ghost predicate Describe(ps: seq<seq<byte>>, cs: seq<B.Capability>) {
    |ps| == |cs| && forall i :: 0 <= i < |cs| ==> B.Fits(cs[i]) && IsFormOf(ps[i], cs[i])
  }

  lemma {:induction false} LongCapabilities(ps: seq<seq<byte>>, cs: seq<B.Capability>)
    requires Describe(ps, cs)
    ensures AllRecords(ps, 3) && B.Capabilities(ps) == cs
  {
    if ps != [] {
      LongCapability(ps[0], cs[0]);
      LongCapabilities(ps[1..], cs[1..]);
      B.CapabilitiesOfHead(ps[0], ps[1..]);
      assert ps == [ps[0]] + ps[1..] && cs == [cs[0]] + cs[1..];
    }
  }

  lemma BosByParts(buf: seq<byte>, head: seq<byte>, ps: seq<seq<byte>>)
    requires |head| == 5 && buf == head + Flatten(ps) && AllRecords(ps, 3)
    requires |buf| <= Le16(head[2], head[3])
    ensures Records(B.ChainOf(buf), 3) == ps
  {
    assert buf[2] == head[2] && buf[3] == head[3];
    assert B.ChainOf(buf) == Flatten(ps) + [];
    RecordsOfConcat(ps, [], 3);
    assert ps + Records([], 3) == ps;
  }

  /** A BOS descriptor in any of these forms, with a total that covers it, is read back as it is. */
  lemma LongCapabilitiesRoundTrip(b: B.Bos, first: byte, ps: seq<seq<byte>>)
    requires Describe(ps, b.capabilities) && 5 + |Flatten(ps)| <= b.totalLength
    ensures var head := [first, B.BOS, Lo(b.totalLength), Hi(b.totalLength), b.numDeviceCaps];
            B.Parse(head + Flatten(ps)) == Ok(b)
  {
    var head := [first, B.BOS, Lo(b.totalLength), Hi(b.totalLength), b.numDeviceCaps];
    var buf := head + Flatten(ps);
    assert AllRecords(ps, 3) && B.Capabilities(ps) == b.capabilities by {
      LongCapabilities(ps, b.capabilities);
    }
    BosByParts(buf, head, ps);
    BosFields(buf, b);
  }

  lemma BosFields(buf: seq<byte>, b: B.Bos)
    requires 5 <= |buf| && buf[1] == B.BOS && buf[2] == Lo(b.totalLength) && buf[3] == Hi(b.totalLength)
    requires buf[4] == b.numDeviceCaps && B.CapabilitiesOf(B.ChainOf(buf)) == b.capabilities
    ensures B.Parse(buf) == Ok(b)
  {
  }
}
