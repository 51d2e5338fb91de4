/** The BOS descriptor parser and its laws (section 9.6.2 of USB 3.0). */
module BosDescriptor {
  import opened UsbBase
  import opened DescriptorChain

  type bytes16 = s: seq<byte> | |s| == 16 witness Zeros(16)
  type bytes4 = s: seq<byte> | |s| == 4 witness Zeros(4)

  datatype Capability =
    | Usb20Extension(extensionAttributes: bytes4)
    | SuperSpeedUsb(
        attributes: byte,
        speedSupported: u16,
        functionalitySupport: byte,
        u1DevExitLat: byte,
        u2DevExitLat: u16)
    | ContainerId(id: bytes16)
    | Unknown(capType: byte, data: seq<byte>)

  datatype Bos = Bos(totalLength: u16, numDeviceCaps: byte, capabilities: seq<Capability>)

  const BOS: byte := 0x0F
  const DEVICE_CAPABILITY: byte := 0x10

  /** One device capability record; its type byte decides, unless the record is too short for it. */
  function CapabilityAt(r: seq<byte>): Capability
    requires 3 <= |r|
  {
    if r[2] == 0x02 && 7 <= |r| then Usb20Extension(r[3..7])
    else if r[2] == 0x03 && 10 <= |r| then
      SuperSpeedUsb(r[3], Le16(r[4], r[5]), r[6], r[7], Le16(r[8], r[9]))
    else if r[2] == 0x04 && 20 <= |r| then ContainerId(r[4..20])
    else Unknown(r[2], r[3..])
  }

  function Capabilities(rs: seq<seq<byte>>): seq<Capability>
    requires AllRecords(rs, 3)
  {
    if rs == [] then []
    else
      assert IsRecord(rs[0], 3);
      (if rs[0][1] == DEVICE_CAPABILITY then [CapabilityAt(rs[0])] else []) + Capabilities(rs[1..])
  }

  function ChainOf(buf: seq<byte>): seq<byte>
    requires 5 <= |buf|
  {
    Behind(buf, 5)
  }

  function CapabilitiesOf(chain: seq<byte>): seq<Capability> {
    RecordsTile(chain, 3);
    Capabilities(Records(chain, 3))
  }

  function Parse(buf: seq<byte>): Result<Bos> {
    if |buf| < 5 || buf[1] != BOS then Err(InvalidDescriptor)
    else Ok(Bos(Le16(buf[2], buf[3]), buf[4], CapabilitiesOf(ChainOf(buf))))
  }

  lemma CapabilitiesOfStep(s: seq<byte>)
    ensures Blocked(s, 3) ==> CapabilitiesOf(s) == []
    ensures !Blocked(s, 3) ==>
      CapabilitiesOf(s) ==
      (if s[1] == DEVICE_CAPABILITY then [CapabilityAt(s[..s[0]])] else []) + CapabilitiesOf(s[s[0]..])
  {
    RecordsTile(s, 3);
    if !Blocked(s, 3) {
      RecordsTile(s[s[0]..], 3);
      assert Records(s, 3)[1..] == Records(s[s[0]..], 3);
    }
  }

  /** The body of the walk for one device capability record. */
  method ReadCapability(capData: seq<byte>) returns (cap: Capability)
    requires 3 <= |capData|
    ensures cap == CapabilityAt(capData)
  {
    var bLength, bCapType := |capData|, capData[2];
    if bCapType == 0x02 && bLength >= 7 {
      cap := Usb20Extension(capData[3..7]);
    } else if bCapType == 0x03 && bLength >= 10 {
      cap := SuperSpeedUsb(
        capData[3], Le16(capData[4], capData[5]), capData[6], capData[7], Le16(capData[8], capData[9]));
    } else if bCapType == 0x04 && bLength >= 20 {
      cap := ContainerId(capData[4..20]);
    } else {
      cap := Unknown(bCapType, capData[3..]);
    }
  }

  /** `rest` is left to read, and `caps` are the capabilities found in the chain before it. */
  ghost predicate Walked(chain: seq<byte>, rest: seq<byte>, caps: seq<Capability>) {
    CapabilitiesOf(chain) == caps + CapabilitiesOf(rest)
  }

  lemma WalkStep(chain: seq<byte>, rest: seq<byte>, caps: seq<Capability>)
    requires Walked(chain, rest, caps)
    ensures Blocked(rest, 3) ==> CapabilitiesOf(chain) == caps
    ensures !Blocked(rest, 3) && rest[1] == DEVICE_CAPABILITY ==>
      Walked(chain, rest[rest[0]..], caps + [CapabilityAt(rest[..rest[0]])])
    ensures !Blocked(rest, 3) && rest[1] != DEVICE_CAPABILITY ==> Walked(chain, rest[rest[0]..], caps)
  {
    CapabilitiesOfStep(rest);
  }

  /** The walk, which skips records of other types: it computes the capabilities of the chain. */
  method WalkChain(buf: seq<byte>, totalLength: u16) returns (capabilities: seq<Capability>)
    requires 5 <= |buf| && totalLength == Le16(buf[2], buf[3])
    ensures capabilities == CapabilitiesOf(ChainOf(buf))
  {
    capabilities := [];
    var pos := 5;
    var end := Min(totalLength, |buf|);
    ghost var chain := ChainOf(buf);
    ghost var rest := chain;

    while pos + 3 <= end
      invariant 5 <= pos && rest == if pos <= end then buf[pos..end] else []
      invariant Walked(chain, rest, capabilities)
      decreases end - pos
    {
      var bLength := buf[pos];
      var bDescType := buf[pos + 1];
      WalkStep(chain, rest, capabilities);

      if bLength < 3 || pos + bLength > end {
        break;
      }
      var capData := buf[pos..pos + bLength];
      SliceOfSlice(buf, pos, end, bLength);
      rest := rest[bLength..];
      if bDescType != 0x10 {
        pos := pos + bLength;
        continue;
      }

      var cap := ReadCapability(capData);
      capabilities := capabilities + [cap];
      pos := pos + bLength;
    }
    WalkStep(chain, rest, capabilities);
  }

  /** `BosDescriptor::from_bytes`. */
  method FromBytes(buf: seq<byte>) returns (r: Result<Bos>)
    ensures r == Parse(buf)
    ensures r.Ok? <==> 5 <= |buf| && buf[1] == 0x0F
    ensures r.Err? ==> r.error == InvalidDescriptor
  {
    if |buf| < 5 {
      return Err(InvalidDescriptor);
    }
    if buf[1] != 0x0F {
      return Err(InvalidDescriptor);
    }
    var totalLength := Le16(buf[2], buf[3]);
    var numCaps := buf[4];
    var capabilities := WalkChain(buf, totalLength);
    return Ok(Bos(totalLength, numCaps, capabilities));
  }

  // ---------------------------------------------------------------------------------------------
  // The wire format and the round trip
  // ---------------------------------------------------------------------------------------------

  /** Bytes of a capability record behind its length byte. */
  function Payload(c: Capability): seq<byte> {
    match c
    case Usb20Extension(a) => [DEVICE_CAPABILITY, 0x02] + a
    case SuperSpeedUsb(a, s, f, u1, u2) => [DEVICE_CAPABILITY, 0x03, a, Lo(s), Hi(s), f, u1, Lo(u2), Hi(u2)]
    case ContainerId(id) => [DEVICE_CAPABILITY, 0x04, 0x00] + id
    case Unknown(t, data) => [DEVICE_CAPABILITY, t] + data
  }

  /** The record has to announce its own length in one byte. */
  predicate Fits(c: Capability) {
    1 + |Payload(c)| <= 255
  }

  function CapabilityRecord(c: Capability): seq<byte>
    requires Fits(c)
  {
    [1 + |Payload(c)|] + Payload(c)
  }

  function CapabilityRecords(cs: seq<Capability>): (rs: seq<seq<byte>>)
    requires forall i :: 0 <= i < |cs| ==> Fits(cs[i])
    ensures |rs| == |cs|
  {
    if cs == [] then [] else [CapabilityRecord(cs[0])] + CapabilityRecords(cs[1..])
  }

  function Encode(b: Bos): seq<byte>
    requires forall i :: 0 <= i < |b.capabilities| ==> Fits(b.capabilities[i])
  {
    [5, BOS, Lo(b.totalLength), Hi(b.totalLength), b.numDeviceCaps] +
    Flatten(CapabilityRecords(b.capabilities))
  }

  /** An `Unknown` entry the parser would not have read as one of the known capabilities. */
  predicate Canonical(c: Capability) {
    c.Unknown? ==>
      && (c.capType == 0x02 ==> |c.data| < 4)
      && (c.capType == 0x03 ==> |c.data| < 7)
      && (c.capType == 0x04 ==> |c.data| < 17)
  }

  lemma CapabilityRoundTrip(c: Capability)
    requires Fits(c)
    ensures IsRecord(CapabilityRecord(c), 3) && CapabilityRecord(c)[1] == DEVICE_CAPABILITY
    ensures CapabilityAt(CapabilityRecord(c)) == c <==> Canonical(c)
  {
    var r := CapabilityRecord(c);
    match c
    case Usb20Extension(a) => assert r[3..7] == a;
    case SuperSpeedUsb(_, _, _, _, _) =>
    case ContainerId(id) => assert r[4..20] == id;
    case Unknown(_, data) => assert r[3..] == data;
  }

  lemma CapabilitiesOfHead(r: seq<byte>, rs: seq<seq<byte>>)
    requires IsRecord(r, 3) && r[1] == DEVICE_CAPABILITY && AllRecords(rs, 3)
    ensures AllRecords([r] + rs, 3)
    ensures Capabilities([r] + rs) == [CapabilityAt(r)] + Capabilities(rs)
  {
    assert ([r] + rs)[0] == r && ([r] + rs)[1..] == rs;
  }

  /** Each written record read back. */
  function ReadBack(cs: seq<Capability>): (back: seq<Capability>)
    requires forall i :: 0 <= i < |cs| ==> Fits(cs[i])
    ensures |back| == |cs|
  {
    if cs == [] then [] else [CapabilityAt(CapabilityRecord(cs[0]))] + ReadBack(cs[1..])
  }

  /** One written record in front of written records. */
  lemma CapabilitiesOfNext(c: Capability, rs: seq<seq<byte>>)
    requires Fits(c) && AllRecords(rs, 3)
    ensures AllRecords([CapabilityRecord(c)] + rs, 3)
    ensures Capabilities([CapabilityRecord(c)] + rs) == [CapabilityAt(CapabilityRecord(c))] + Capabilities(rs)
  {
    CapabilityRoundTrip(c);
    CapabilitiesOfHead(CapabilityRecord(c), rs);
  }

  lemma {:induction false} CapabilitiesOfRecords(cs: seq<Capability>)
    requires forall i :: 0 <= i < |cs| ==> Fits(cs[i])
    ensures AllRecords(CapabilityRecords(cs), 3)
    ensures Capabilities(CapabilityRecords(cs)) == ReadBack(cs)
  {
    if cs != [] {
      CapabilitiesOfRecords(cs[1..]);
      CapabilitiesOfNext(cs[0], CapabilityRecords(cs[1..]));
    }
  }

  lemma {:induction false} ReadBackAt(cs: seq<Capability>, i: nat)
    requires (forall j :: 0 <= j < |cs| ==> Fits(cs[j])) && i < |cs|
    ensures ReadBack(cs)[i] == CapabilityAt(CapabilityRecord(cs[i]))
  {
    if 0 < i {
      ReadBackAt(cs[1..], i - 1);
    }
  }

  /** Everything is read back as it was written exactly when every entry is. */
  lemma ReadBackExactly(cs: seq<Capability>)
    requires forall i :: 0 <= i < |cs| ==> Fits(cs[i])
    ensures ReadBack(cs) == cs <==> forall i :: 0 <= i < |cs| ==> Canonical(cs[i])
  {
    var back := ReadBack(cs);
    forall i | 0 <= i < |cs|
      ensures back[i] == cs[i] <==> Canonical(cs[i])
    {
      ReadBackAt(cs, i);
      CapabilityRoundTrip(cs[i]);
    }
    assert back == cs <==> forall i :: 0 <= i < |cs| ==> back[i] == cs[i];
  }

  lemma EncodedHeader(b: Bos)
    requires forall i :: 0 <= i < |b.capabilities| ==> Fits(b.capabilities[i])
    ensures var buf, tail := Encode(b), Flatten(CapabilityRecords(b.capabilities));
            && |buf| == 5 + |tail| && buf[1] == BOS && buf[4] == b.numDeviceCaps
            && Le16(buf[2], buf[3]) == b.totalLength
            && ChainOf(buf) == tail[..Min(|tail|, if b.totalLength < 5 then 0 else b.totalLength - 5)]
  {
    var buf := Encode(b);
    assert buf[2] == Lo(b.totalLength) && buf[3] == Hi(b.totalLength);
    assert buf[5..] == Flatten(CapabilityRecords(b.capabilities));
  }

  lemma {:induction false} CapabilitiesBound(rs: seq<seq<byte>>)
    requires AllRecords(rs, 3)
    ensures |Capabilities(rs)| <= |rs|
  {
    if rs != [] {
      CapabilitiesBound(rs[1..]);
    }
  }

  /** A covered encoding is read back record by record. */
  lemma EncodedCapabilities(b: Bos)
    requires forall i :: 0 <= i < |b.capabilities| ==> Fits(b.capabilities[i])
    requires b.capabilities == [] || |Encode(b)| <= b.totalLength
    ensures AllRecords(CapabilityRecords(b.capabilities), 3)
    ensures Parse(Encode(b)) == Ok(b.(capabilities := Capabilities(CapabilityRecords(b.capabilities))))
  {
    var rs := CapabilityRecords(b.capabilities);
    CapabilitiesOfRecords(b.capabilities);
    EncodedHeader(b);
    assert ChainOf(Encode(b)) == Flatten(rs);
    assert Records(Flatten(rs), 3) == rs by {
      RecordsOfConcat(rs, [], 3);
      assert Flatten(rs) + [] == Flatten(rs) && rs + Records([], 3) == rs;
    }
  }

  /** An encoding that is not covered loses an entry. */
  lemma UncoveredCapabilities(b: Bos)
    requires forall i :: 0 <= i < |b.capabilities| ==> Fits(b.capabilities[i])
    requires b.capabilities != [] && b.totalLength < |Encode(b)|
    ensures Parse(Encode(b)).Ok? && |Parse(Encode(b)).value.capabilities| < |b.capabilities|
  {
    var rs := CapabilityRecords(b.capabilities);
    CapabilitiesOfRecords(b.capabilities);
    EncodedHeader(b);
    var tail, chain := Flatten(rs), ChainOf(Encode(b));
    RecordsOfConcat(rs, [], 3);
    assert tail + [] == tail && rs + Records([], 3) == rs;
    CapabilityRoundTrip(b.capabilities[0]);
    assert |tail| >= |rs[0]|;
    RecordsOfPrefix(tail, |chain|, 3);
    assert rs[..|rs|] == rs;
    RecordsTile(chain, 3);
    CapabilitiesBound(Records(chain, 3));
  }

  /**
   Round trip. Parsing the encoding of a descriptor gives it back if and only if its announced total covers
   the encoding (or there is no entry to be cut off) and no `Unknown` entry is a known capability in
   disguise.
   */
  lemma RoundTrip(b: Bos)
    requires forall i :: 0 <= i < |b.capabilities| ==> Fits(b.capabilities[i])
    ensures Parse(Encode(b)) == Ok(b) <==>
            && (b.capabilities == [] || |Encode(b)| <= b.totalLength)
            && forall i :: 0 <= i < |b.capabilities| ==> Canonical(b.capabilities[i])
  {
    if b.capabilities == [] || |Encode(b)| <= b.totalLength {
      EncodedCapabilities(b);
      CapabilitiesOfRecords(b.capabilities);
      ReadBackExactly(b.capabilities);
    } else {
      UncoveredCapabilities(b);
    }
  }

  // ---------------------------------------------------------------------------------------------
  // Records of other types between the capabilities
  // ---------------------------------------------------------------------------------------------

  lemma {:induction false} CapabilitiesSkip(front: seq<seq<byte>>, u: seq<byte>, back: seq<seq<byte>>)
    requires AllRecords(front, 3) && AllRecords(back, 3) && IsRecord(u, 3)
    requires u[1] != DEVICE_CAPABILITY
    ensures AllRecords(front + [u] + back, 3) && AllRecords(front + back, 3)
    ensures Capabilities(front + [u] + back) == Capabilities(front + back)
  {
    var a, b := front + [u] + back, front + back;
    if front == [] {
      assert a[1..] == back && b == back;
    } else {
      CapabilitiesSkip(front[1..], u, back);
      assert a[1..] == front[1..] + [u] + back && b[1..] == front[1..] + back;
    }
  }

  lemma CapabilitiesOfInserted(buf: seq<byte>, i: nat, u: seq<byte>)
    requires 5 <= |buf| && i <= |Records(ChainOf(buf), 3)|
    requires IsRecord(u, 3) && u[1] != DEVICE_CAPABILITY && Le16(buf[2], buf[3]) + |u| <= 0xFFFF
    ensures CapabilitiesOf(ChainOf(Inserted(buf, Boundary(buf, 5, i, 3), u))) == CapabilitiesOf(ChainOf(buf))
  {
    var rs := Records(ChainOf(buf), 3);
    RecordsTile(ChainOf(buf), 3);
    RecordsOfInserted(buf, 5, i, u, 3);
    assert rs[..i] + rs[i..] == rs;
    CapabilitiesSkip(rs[..i], u, rs[i..]);
  }

  /** Equal headers, apart from the total length, and chains with the same capabilities. */
  lemma ParseOfSameCapabilities(buf: seq<byte>, b: seq<byte>)
    requires 5 <= |buf| && 5 <= |b| && buf[1] == b[1] == BOS && b[4] == buf[4]
    requires CapabilitiesOf(ChainOf(b)) == CapabilitiesOf(ChainOf(buf))
    ensures Parse(b) == Ok(Parse(buf).value.(totalLength := Le16(b[2], b[3])))
  {
  }

  /** A record of another type, written into any accepted buffer at any record boundary with the total
      length raised accordingly, changes no capability. */
  lemma OtherRecordsAreSkipped(buf: seq<byte>, i: nat, u: seq<byte>)
    requires Parse(buf).Ok? && i <= |Records(ChainOf(buf), 3)|
    requires IsRecord(u, 3) && u[1] != DEVICE_CAPABILITY
    requires Le16(buf[2], buf[3]) + |u| <= 0xFFFF
    ensures var b := Parse(buf).value;
            Parse(Inserted(buf, Boundary(buf, 5, i, 3), u)) == Ok(b.(totalLength := b.totalLength + |u|))
  {
    var b := Inserted(buf, Boundary(buf, 5, i, 3), u);
    assert Parse(b) == Ok(Parse(buf).value.(totalLength := Le16(b[2], b[3]))) by {
      CapabilitiesOfInserted(buf, i, u);
      HeaderOfInserted(buf, 5, Boundary(buf, 5, i, 3), u);
      ParseOfSameCapabilities(buf, b);
    }
    assert Le16(b[2], b[3]) == Le16(buf[2], buf[3]) + |u| by {
      HeaderOfInserted(buf, 5, Boundary(buf, 5, i, 3), u);
    }
  }
}
