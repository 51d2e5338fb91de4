/**
 The configuration descriptor parser: one walk over the descriptor chain that grows a list of
 interfaces in place, hanging every record on the last interface or endpoint seen so far.
 */
module ConfigDescriptor {
  import opened UsbBase
  import opened DescriptorChain

  datatype Companion = Companion(maxBurst: byte, attributes: byte, bytesPerInterval: u16)

  datatype Endpoint = Endpoint(
    address: byte,
    attributes: byte,
    maxPacketSize: u16,
    interval: byte,
    companion: Option<Companion>)

  datatype Hid = Hid(
    bcdHid: u16,
    countryCode: byte,
    numDescriptors: byte,
    descriptorType: byte,
    descriptorLength: u16)

  datatype Interface = Interface(
    number: byte,
    alternateSetting: byte,
    numEndpoints: byte,
    class_: byte,
    subClass: byte,
    protocol: byte,
    index: byte,
    endpoints: seq<Endpoint>,
    hid: Option<Hid>)

  datatype Config = Config(
    totalLength: u16,
    numInterfaces: byte,
    configurationValue: byte,
    configurationIndex: byte,
    attributes: byte,
    maxPower: byte,
    interfaces: seq<Interface>)

  const CONFIG: byte := 0x02
  const INTERFACE: byte := 0x04
  const ENDPOINT: byte := 0x05
  const HID: byte := 0x21
  const COMPANION: byte := 0x30

  // The four record readers.

  function InterfaceAt(r: seq<byte>): Result<Interface> {
    if |r| < 9 || r[1] != INTERFACE then Err(InvalidDescriptor)
    else Ok(Interface(r[2], r[3], r[4], r[5], r[6], r[7], r[8], [], None))
  }

  function EndpointAt(r: seq<byte>): Result<Endpoint> {
    if |r| < 7 || r[1] != ENDPOINT then Err(InvalidDescriptor)
    else Ok(Endpoint(r[2], r[3], Le16(r[4], r[5]), r[6], None))
  }

  function CompanionAt(r: seq<byte>): Result<Companion> {
    if |r| < 6 || r[1] != COMPANION then Err(InvalidDescriptor)
    else Ok(Companion(r[2], r[3], Le16(r[4], r[5])))
  }

  function HidAt(r: seq<byte>): Result<Hid> {
    if |r| < 9 || r[1] != HID then Err(InvalidDescriptor)
    else Ok(Hid(Le16(r[2], r[3]), r[4], r[5], r[6], Le16(r[7], r[8])))
  }

  // Updates of the last element, the specification of `last_mut()`.

  function WithLast<T>(s: seq<T>, x: T): seq<T>
    requires s != []
  {
    s[|s| - 1 := x]
  }

  function AddEndpoint(ifs: seq<Interface>, e: Endpoint): seq<Interface> {
    if ifs == [] then ifs
    else
      var last := ifs[|ifs| - 1];
      WithLast(ifs, last.(endpoints := last.endpoints + [e]))
  }

  function SetHid(ifs: seq<Interface>, h: Hid): seq<Interface> {
    if ifs == [] then ifs else WithLast(ifs, ifs[|ifs| - 1].(hid := Some(h)))
  }

  function SetCompanion(ifs: seq<Interface>, c: Companion): seq<Interface> {
    if ifs == [] || ifs[|ifs| - 1].endpoints == [] then ifs
    else
      var last := ifs[|ifs| - 1];
      var e := last.endpoints[|last.endpoints| - 1];
      WithLast(ifs, last.(endpoints := WithLast(last.endpoints, e.(companion := Some(c)))))
  }

  /** What one record of the chain does to the interfaces found before it. */
  function Attach(ifs: seq<Interface>, r: seq<byte>): seq<Interface> {
    if InterfaceAt(r).Ok? then ifs + [InterfaceAt(r).value]
    else if EndpointAt(r).Ok? then AddEndpoint(ifs, EndpointAt(r).value)
    else if HidAt(r).Ok? then SetHid(ifs, HidAt(r).value)
    else if CompanionAt(r).Ok? then SetCompanion(ifs, CompanionAt(r).value)
    else ifs
  }

  function Build(rs: seq<seq<byte>>): seq<Interface> {
    if rs == [] then [] else Attach(Build(rs[..|rs| - 1]), rs[|rs| - 1])
  }

  /** The bytes the walk may look at: from byte 9 to wTotalLength or to the end of the buffer. */
  function ChainOf(buf: seq<byte>): seq<byte>
    requires 9 <= |buf|
  {
    Behind(buf, 9)
  }

  function Parse(buf: seq<byte>): Result<Config> {
    if |buf| < 9 || buf[1] != CONFIG then Err(InvalidDescriptor)
    else Ok(Config(Le16(buf[2], buf[3]), buf[4], buf[5], buf[6], buf[7], buf[8],
                   Build(Records(ChainOf(buf), 2))))
  }

  /** `ifs` is what the walk over `chain` has built when only `rest` is left to read. */
  ghost predicate Walked(chain: seq<byte>, rest: seq<byte>, ifs: seq<Interface>) {
    exists done :: Records(chain, 2) == done + Records(rest, 2) && ifs == Build(done)
  }

  lemma WalkStart(chain: seq<byte>)
    ensures Walked(chain, chain, [])
  {
    assert [] + Records(chain, 2) == Records(chain, 2);
    assert Build([]) == [];
  }

  lemma WalkStep(chain: seq<byte>, rest: seq<byte>, ifs: seq<Interface>)
    requires Walked(chain, rest, ifs) && !Blocked(rest, 2)
    ensures Walked(chain, rest[rest[0]..], Attach(ifs, rest[..rest[0]]))
  {
    var done :| Records(chain, 2) == done + Records(rest, 2) && ifs == Build(done);
    var more := done + [rest[..rest[0]]];
    assert more[..|more| - 1] == done;
    assert Records(chain, 2) == more + Records(rest[rest[0]..], 2);
  }

  lemma WalkEnd(chain: seq<byte>, rest: seq<byte>, ifs: seq<Interface>)
    requires Walked(chain, rest, ifs) && Blocked(rest, 2)
    ensures ifs == Build(Records(chain, 2))
  {
    var done :| Records(chain, 2) == done + Records(rest, 2) && ifs == Build(done);
    assert done + [] == done;
  }

  /** The body of the walk for one record; the readers it calls never fail. */
  method ReadRecord(interfaces: seq<Interface>, record: seq<byte>) returns (ifs: seq<Interface>)
    requires 2 <= |record|
    ensures ifs == Attach(interfaces, record)
  {
    ifs := interfaces;
    if record[1] == 0x04 {
      if |record| >= 9 {
        var iface := InterfaceAt(record);
        assert iface.Ok?;
        ifs := ifs + [iface.value];
      }
    } else if record[1] == 0x05 {
      if |record| >= 7 {
        var ep := EndpointAt(record);
        assert ep.Ok?;
        if ifs != [] {
          var last := ifs[|ifs| - 1];
          ifs := ifs[|ifs| - 1 := last.(endpoints := last.endpoints + [ep.value])];
        }
      }
    } else if record[1] == 0x21 {
      if |record| >= 9 {
        var hid := HidAt(record);
        assert hid.Ok?;
        if ifs != [] {
          var last := ifs[|ifs| - 1];
          ifs := ifs[|ifs| - 1 := last.(hid := Some(hid.value))];
        }
      }
    } else if record[1] == 0x30 {
      if |record| >= 6 {
        var ssc := CompanionAt(record);
        if ssc.Ok? && ifs != [] {
          var last := ifs[|ifs| - 1];
          if last.endpoints != [] {
            var n := |last.endpoints|;
            var ep := last.endpoints[n - 1].(companion := Some(ssc.value));
            ifs := ifs[|ifs| - 1 := last.(endpoints := last.endpoints[n - 1 := ep])];
          }
        }
      }
    }
  }

  /** The walk: the in-place loop computes the fold of `Attach` over the records of the chain. */
  method WalkChain(buf: seq<byte>, totalLength: u16) returns (interfaces: seq<Interface>)
    requires 9 <= |buf| && totalLength == Le16(buf[2], buf[3])
    ensures interfaces == Build(Records(ChainOf(buf), 2))
  {
    interfaces := [];
    var pos := 9;
    var end := Min(totalLength, |buf|);
    ghost var chain := ChainOf(buf);
    ghost var rest := chain;
    WalkStart(chain);

    while pos + 2 <= end
      invariant 9 <= pos && rest == if pos <= end then buf[pos..end] else []
      invariant Walked(chain, rest, interfaces)
      decreases end - pos
    {
      var bLength := buf[pos];

      if bLength < 2 || pos + bLength > end {
        break;
      }
      var record := buf[pos..pos + bLength];
      SliceOfSlice(buf, pos, end, bLength);
      WalkStep(chain, rest, interfaces);

      interfaces := ReadRecord(interfaces, record);
      rest := rest[bLength..];
      pos := pos + bLength;
    }
    WalkEnd(chain, rest, interfaces);
  }

  /** `ConfigDescriptor::from_bytes`. */
  method FromBytes(buf: seq<byte>) returns (r: Result<Config>)
    ensures r == Parse(buf)
    ensures r.Ok? <==> 9 <= |buf| && buf[1] == 0x02
    ensures r.Err? ==> r.error == InvalidDescriptor
  {
    if |buf| < 9 {
      return Err(InvalidDescriptor);
    }
    if buf[1] != 0x02 {
      return Err(InvalidDescriptor);
    }
    var totalLength := Le16(buf[2], buf[3]);
    var interfaces := WalkChain(buf, totalLength);
    return Ok(Config(totalLength, buf[4], buf[5], buf[6], buf[7], buf[8], interfaces));
  }
}
