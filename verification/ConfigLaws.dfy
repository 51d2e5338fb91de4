/** Laws of the configuration parser: round trip, normal form, truncation, placement, skipping. */
module ConfigLaws {
  import opened UsbBase
  import opened DescriptorChain
  import opened ConfigDescriptor

  // ---------------------------------------------------------------------------------------------
  // The wire format of a tree (sections 9.6.3, 9.6.5 and 9.6.6 of USB 2.0, section 9.6.7 of
  // USB 3.0, section 6.2.1 of HID 1.11)
  // ---------------------------------------------------------------------------------------------

  function InterfaceRecord(i: Interface): seq<byte> {
    [9, INTERFACE, i.number, i.alternateSetting, i.numEndpoints, i.class_, i.subClass, i.protocol, i.index]
  }

  function HidRecord(h: Hid): seq<byte> {
    [9, HID, Lo(h.bcdHid), Hi(h.bcdHid), h.countryCode, h.numDescriptors, h.descriptorType,
     Lo(h.descriptorLength), Hi(h.descriptorLength)]
  }

  function EndpointRecord(e: Endpoint): seq<byte> {
    [7, ENDPOINT, e.address, e.attributes, Lo(e.maxPacketSize), Hi(e.maxPacketSize), e.interval]
  }

  function CompanionRecord(c: Companion): seq<byte> {
    [6, COMPANION, c.maxBurst, c.attributes, Lo(c.bytesPerInterval), Hi(c.bytesPerInterval)]
  }

  function EndpointRecords(e: Endpoint): seq<seq<byte>> {
    [EndpointRecord(e)] + if e.companion.Some? then [CompanionRecord(e.companion.value)] else []
  }

  function AllEndpointRecords(es: seq<Endpoint>): seq<seq<byte>> {
    if es == [] then [] else AllEndpointRecords(es[..|es| - 1]) + EndpointRecords(es[|es| - 1])
  }

  function HeadRecords(i: Interface): seq<seq<byte>> {
    [InterfaceRecord(i)] + if i.hid.Some? then [HidRecord(i.hid.value)] else []
  }

  function TreeRecords(ifs: seq<Interface>): seq<seq<byte>> {
    if ifs == [] then []
    else
      var last := ifs[|ifs| - 1];
      TreeRecords(ifs[..|ifs| - 1]) + HeadRecords(last) + AllEndpointRecords(last.endpoints)
  }

  function Header(c: Config): seq<byte> {
    [9, CONFIG, Lo(c.totalLength), Hi(c.totalLength), c.numInterfaces, c.configurationValue,
     c.configurationIndex, c.attributes, c.maxPower]
  }

  function Encode(c: Config): seq<byte> {
    Header(c) + Flatten(TreeRecords(c.interfaces))
  }

  // ---------------------------------------------------------------------------------------------
  // Round trip
  // ---------------------------------------------------------------------------------------------

  lemma BuildSnoc(rs: seq<seq<byte>>, r: seq<byte>)
    ensures Build(rs + [r]) == Attach(Build(rs), r)
  {
    assert (rs + [r])[..|rs|] == rs;
  }

  /** What the written records do when they are attached. */
  lemma AttachEndpointRecords(ifs: seq<Interface>, e: Endpoint, c: Companion)
    ensures Attach(ifs, EndpointRecord(e)) == AddEndpoint(ifs, e.(companion := None))
    ensures Attach(ifs, CompanionRecord(c)) == SetCompanion(ifs, c)
  {
    assert EndpointAt(EndpointRecord(e)) == Ok(e.(companion := None));
    assert CompanionAt(CompanionRecord(c)) == Ok(c);
  }

  lemma CompanionOfAdded(ifs: seq<Interface>, e: Endpoint, c: Companion)
    requires ifs != []
    ensures SetCompanion(AddEndpoint(ifs, e), c) == AddEndpoint(ifs, e.(companion := Some(c)))
  {
    var es := ifs[|ifs| - 1].endpoints;
    assert WithLast(es + [e], e.(companion := Some(c))) == es + [e.(companion := Some(c))];
  }

  lemma BuildEndpoint(rs: seq<seq<byte>>, e: Endpoint)
    requires Build(rs) != []
    ensures Build(rs + EndpointRecords(e)) == AddEndpoint(Build(rs), e)
  {
    BuildSnoc(rs, EndpointRecord(e));
    if e.companion.Some? {
      var c, more := e.companion.value, rs + [EndpointRecord(e)];
      assert rs + EndpointRecords(e) == more + [CompanionRecord(c)];
      BuildSnoc(more, CompanionRecord(c));
      AttachEndpointRecords(Build(rs), e, c);
      AttachEndpointRecords(Build(more), e, c);
      CompanionOfAdded(Build(rs), e.(companion := None), c);
    } else {
      AttachEndpointRecords(Build(rs), e, Companion(0, 0, 0));
      assert e == e.(companion := None);
    }
  }

  lemma AddLastEndpoint(front: seq<Interface>, i: Interface)
    requires i.endpoints != []
    ensures var n := |i.endpoints| - 1;
            AddEndpoint(front + [i.(endpoints := i.endpoints[..n])], i.endpoints[n]) == front + [i]
  {
    var n := |i.endpoints| - 1;
    assert i.endpoints[..n] + [i.endpoints[n]] == i.endpoints;
  }

  lemma {:induction false} BuildEndpoints(rs: seq<seq<byte>>, front: seq<Interface>, i: Interface)
    requires Build(rs) == front + [i.(endpoints := [])]
    ensures Build(rs + AllEndpointRecords(i.endpoints)) == front + [i]
    decreases |i.endpoints|
  {
    var n := |i.endpoints| - 1;
    if n < 0 {
      assert rs + AllEndpointRecords(i.endpoints) == rs;
    } else {
      var less, e := i.(endpoints := i.endpoints[..n]), i.endpoints[n];
      var more := rs + AllEndpointRecords(less.endpoints);
      assert Build(more) == front + [less] by {
        assert i.(endpoints := []) == less.(endpoints := []);
        BuildEndpoints(rs, front, less);
      }
      assert Build(more + EndpointRecords(e)) == AddEndpoint(front + [less], e) by {
        BuildEndpoint(more, e);
      }
      AddLastEndpoint(front, i);
      assert rs + AllEndpointRecords(i.endpoints) == more + EndpointRecords(e);
    }
  }

  lemma BuildHead(rs: seq<seq<byte>>, i: Interface)
    ensures Build(rs + HeadRecords(i)) == Build(rs) + [i.(endpoints := [])]
  {
    var more := rs + [InterfaceRecord(i)];
    var bare := i.(endpoints := [], hid := None);
    assert Build(more) == Build(rs) + [bare] by {
      BuildSnoc(rs, InterfaceRecord(i));
    }
    if i.hid.Some? {
      BuildSnoc(more, HidRecord(i.hid.value));
      assert rs + HeadRecords(i) == more + [HidRecord(i.hid.value)];
      assert HidAt(HidRecord(i.hid.value)) == Ok(i.hid.value);
      assert SetHid(Build(rs) + [bare], i.hid.value) == Build(rs) + [i.(endpoints := [])];
    } else {
      assert HeadRecords(i) == [InterfaceRecord(i)];
    }
  }

  /** Folding the records of a tree gives the tree back. */
  lemma {:induction false} BuildTreeRecords(ifs: seq<Interface>)
    ensures Build(TreeRecords(ifs)) == ifs
    decreases |ifs|
  {
    if ifs != [] {
      var front, i := ifs[..|ifs| - 1], ifs[|ifs| - 1];
      var head := TreeRecords(front) + HeadRecords(i);
      assert Build(head) == front + [i.(endpoints := [])] by {
        BuildTreeRecords(front);
        BuildHead(TreeRecords(front), i);
      }
      assert Build(head + AllEndpointRecords(i.endpoints)) == front + [i] by {
        BuildEndpoints(head, front, i);
      }
      assert front + [i] == ifs;
    }
  }

  lemma {:induction false} AllEndpointRecordsComplete(es: seq<Endpoint>)
    ensures AllRecords(AllEndpointRecords(es), 2)
    decreases |es|
  {
    if es != [] {
      AllEndpointRecordsComplete(es[..|es| - 1]);
    }
  }

  lemma {:induction false} TreeRecordsComplete(ifs: seq<Interface>)
    ensures AllRecords(TreeRecords(ifs), 2)
    decreases |ifs|
  {
    if ifs != [] {
      TreeRecordsComplete(ifs[..|ifs| - 1]);
      AllEndpointRecordsComplete(ifs[|ifs| - 1].endpoints);
    }
  }

  // Bytes needed to write a tree.

  function EndpointsSize(es: seq<Endpoint>): nat {
    if es == [] then 0
    else EndpointsSize(es[..|es| - 1]) + 7 + if es[|es| - 1].companion.Some? then 6 else 0
  }

  function TreeSize(ifs: seq<Interface>): nat {
    if ifs == [] then 0
    else
      var i := ifs[|ifs| - 1];
      TreeSize(ifs[..|ifs| - 1]) + 9 + (if i.hid.Some? then 9 else 0) + EndpointsSize(i.endpoints)
  }

  lemma {:induction false} EndpointsSizeIsLength(es: seq<Endpoint>)
    ensures |Flatten(AllEndpointRecords(es))| == EndpointsSize(es)
    decreases |es|
  {
    if es != [] {
      var front, e := es[..|es| - 1], es[|es| - 1];
      EndpointsSizeIsLength(front);
      FlattenConcat(AllEndpointRecords(front), EndpointRecords(e));
      FlattenConcat([EndpointRecord(e)], EndpointRecords(e)[1..]);
      assert EndpointRecords(e) == [EndpointRecord(e)] + EndpointRecords(e)[1..];
    }
  }

  lemma {:induction false} TreeSizeIsLength(ifs: seq<Interface>)
    ensures |Flatten(TreeRecords(ifs))| == TreeSize(ifs)
    decreases |ifs|
  {
    if ifs != [] {
      var front, i := ifs[..|ifs| - 1], ifs[|ifs| - 1];
      TreeSizeIsLength(front);
      EndpointsSizeIsLength(i.endpoints);
      FlattenConcat(TreeRecords(front) + HeadRecords(i), AllEndpointRecords(i.endpoints));
      FlattenConcat(TreeRecords(front), HeadRecords(i));
      FlattenConcat([InterfaceRecord(i)], HeadRecords(i)[1..]);
      assert HeadRecords(i) == [InterfaceRecord(i)] + HeadRecords(i)[1..];
    }
  }

  lemma AttachSize(ifs: seq<Interface>, r: seq<byte>)
    ensures TreeSize(Attach(ifs, r)) <= TreeSize(ifs) + |r|
  {
    var out := Attach(ifs, r);
    if InterfaceAt(r).Ok? {
      assert out[..|out| - 1] == ifs;
    } else if ifs != [] && out != ifs {
      var a, b := ifs[|ifs| - 1], out[|out| - 1];
      assert out[..|out| - 1] == ifs[..|ifs| - 1];
      if EndpointAt(r).Ok? {
        assert b.endpoints[..|b.endpoints| - 1] == a.endpoints;
      } else if CompanionAt(r).Ok? && a.endpoints != [] {
        assert b.endpoints[..|b.endpoints| - 1] == a.endpoints[..|a.endpoints| - 1];
      }
    }
  }

  /** A chain is never shorter than the tree read from it. */
  lemma {:induction false} BuildSize(rs: seq<seq<byte>>)
    ensures TreeSize(Build(rs)) <= |Flatten(rs)|
    decreases |rs|
  {
    if rs != [] {
      var front, r := rs[..|rs| - 1], rs[|rs| - 1];
      BuildSize(front);
      AttachSize(Build(front), r);
      assert rs == front + [r];
      FlattenConcat(front, [r]);
      assert Flatten([r]) == r + Flatten([]);
    }
  }

  lemma EncodedHeader(c: Config, junk: seq<byte>)
    ensures var buf := Encode(c) + junk;
            && 9 <= |buf| && buf[1] == CONFIG && Le16(buf[2], buf[3]) == c.totalLength
            && buf[..9] == Header(c)
            && buf[9..] == Flatten(TreeRecords(c.interfaces)) + junk
  {
    var buf := Encode(c) + junk;
    assert buf == Header(c) + (Flatten(TreeRecords(c.interfaces)) + junk);
    assert forall i :: 0 <= i < 9 ==> buf[i] == Header(c)[i];
  }

  /**
   Round trip. Parsing the encoding of a configuration gives it back if and only if its wTotalLength
   covers the encoding (or there is nothing behind the header to be cut off).
   */
  lemma RoundTrip(c: Config)
    ensures Parse(Encode(c)) == Ok(c) <==> c.interfaces == [] || |Encode(c)| <= c.totalLength
  {
    var rs := TreeRecords(c.interfaces);
    var buf := Encode(c);
    EncodedHeader(c, []);
    assert Encode(c) + [] == buf;
    TreeRecordsComplete(c.interfaces);
    BuildTreeRecords(c.interfaces);
    var chain := ChainOf(buf);
    assert forall i :: 0 <= i < 9 ==> buf[i] == buf[..9][i];
    if |buf| <= c.totalLength {
      assert chain == Flatten(rs) + [];
      RecordsOfConcat(rs, [], 2);
      assert rs + Records([], 2) == rs;
    } else if c.interfaces != [] {
      TreeSizeIsLength(c.interfaces);
      RecordsTile(chain, 2);
      BuildSize(Records(chain, 2));
      assert TreeSize(Build(Records(chain, 2))) < TreeSize(c.interfaces);
    }
  }

  /** Bytes behind a correctly announced encoding do not matter. */
  lemma RoundTripBeforeJunk(c: Config, junk: seq<byte>)
    requires c.totalLength == |Encode(c)|
    ensures Parse(Encode(c) + junk) == Ok(c)
  {
    var rs := TreeRecords(c.interfaces);
    var buf := Encode(c) + junk;
    EncodedHeader(c, junk);
    TreeRecordsComplete(c.interfaces);
    BuildTreeRecords(c.interfaces);
    assert forall i :: 0 <= i < 9 ==> buf[i] == buf[..9][i];
    assert ChainOf(buf) == buf[9..][..|Flatten(rs)|] == Flatten(rs) + [];
    RecordsOfConcat(rs, [], 2);
    assert rs + Records([], 2) == rs;
  }

  /**
   Normal form. Whatever was parsed, its re-encoding always fits a 16-bit length, is no longer than
   the part of the buffer that was read, and parses to the same configuration.
   */
  lemma ReencodingIsStable(buf: seq<byte>)
    requires Parse(buf).Ok?
    ensures var c := Parse(buf).value;
            && |Encode(c)| == 9 + TreeSize(c.interfaces) <= 9 + |ChainOf(buf)| <= 0xFFFF
            && var again := c.(totalLength := |Encode(c)|);
               Parse(Encode(again)) == Ok(again)
  {
    var c := Parse(buf).value;
    TreeSizeIsLength(c.interfaces);
    RecordsTile(ChainOf(buf), 2);
    BuildSize(Records(ChainOf(buf), 2));
    RoundTrip(c.(totalLength := |Encode(c)|));
  }

  // ---------------------------------------------------------------------------------------------
  // Truncation
  // ---------------------------------------------------------------------------------------------

  ghost predicate EndpointGrows(a: Endpoint, b: Endpoint) {
    a == b.(companion := a.companion) && (a.companion.Some? ==> b.companion.Some?)
  }

  /** `b` continues `a`: only the last element of `a` may have been still under construction. */
  ghost predicate EndpointsGrow(a: seq<Endpoint>, b: seq<Endpoint>) {
    && |a| <= |b|
    && (forall i :: 0 <= i < |a| - 1 ==> a[i] == b[i])
    && (a != [] ==> EndpointGrows(a[|a| - 1], b[|a| - 1]))
  }

  ghost predicate InterfaceGrows(a: Interface, b: Interface) {
    && a == b.(endpoints := a.endpoints, hid := a.hid)
    && (a.hid.Some? ==> b.hid.Some?)
    && EndpointsGrow(a.endpoints, b.endpoints)
  }

  ghost predicate TreeGrows(a: seq<Interface>, b: seq<Interface>) {
    && |a| <= |b|
    && (forall i :: 0 <= i < |a| - 1 ==> a[i] == b[i])
    && (a != [] ==> InterfaceGrows(a[|a| - 1], b[|a| - 1]))
  }

  lemma AttachGrows(ifs: seq<Interface>, r: seq<byte>)
    ensures TreeGrows(ifs, Attach(ifs, r))
  {
  }

  lemma TreeGrowsTransitive(a: seq<Interface>, b: seq<Interface>, c: seq<Interface>)
    requires TreeGrows(a, b) && TreeGrows(b, c)
    ensures TreeGrows(a, c)
  {
  }

  lemma {:induction false} BuildGrows(rs: seq<seq<byte>>, j: nat)
    requires j <= |rs|
    ensures TreeGrows(Build(rs[..j]), Build(rs))
    decreases |rs| - j
  {
    if j < |rs| {
      BuildGrows(rs, j + 1);
      assert rs[..j + 1] == rs[..j] + [rs[j]];
      BuildSnoc(rs[..j], rs[j]);
      AttachGrows(Build(rs[..j]), rs[j]);
      TreeGrowsTransitive(Build(rs[..j]), Build(rs[..j + 1]), Build(rs));
    } else {
      assert rs[..j] == rs;
    }
  }

  /** Number of records of the chain of `buf` that end at or before byte `k` of the buffer. */
  ghost predicate EndsBefore(rs: seq<seq<byte>>, j: nat, k: nat) {
    && j <= |rs|
    && 9 + |Flatten(rs[..j])| <= k
    && (j < |rs| ==> k < 9 + |Flatten(rs[..j + 1])|)
  }

  lemma ChainOfPrefix(buf: seq<byte>, k: nat)
    requires 9 <= k <= |buf|
    ensures ChainOf(buf[..k]) == ChainOf(buf)[..Min(k - 9, |ChainOf(buf)|)]
  {
    var b, total := buf[..k], Le16(buf[2], buf[3]);
    assert b[2] == buf[2] && b[3] == buf[3];
    if 9 <= total {
      var end, cut := Min(total, |buf|), Min(total, k);
      assert ChainOf(b) == b[9..cut] == buf[9..cut] == buf[9..end][..cut - 9];
    }
  }

  /**
   Truncation. Parsing a cut buffer keeps the header and exactly the records that end before the cut,
   and the resulting tree is a prefix of the full one; a cut behind the walked bytes changes nothing.
   */
  lemma Truncation(buf: seq<byte>, k: nat)
    requires Parse(buf).Ok? && 9 <= k <= |buf|
    ensures Parse(buf[..k]).Ok?
    ensures var full, cut := Parse(buf).value, Parse(buf[..k]).value;
            var rs, j := Records(ChainOf(buf), 2), |Records(ChainOf(buf[..k]), 2)|;
            && EndsBefore(rs, j, k)
            && cut == full.(interfaces := Build(rs[..j]))
            && TreeGrows(cut.interfaces, full.interfaces)
    ensures 9 + |ChainOf(buf)| <= k ==> Parse(buf[..k]) == Parse(buf)
  {
    var b := buf[..k];
    assert forall i :: 0 <= i < 9 ==> b[i] == buf[i];
    var chain := ChainOf(buf);
    var m := Min(k - 9, |chain|);
    ChainOfPrefix(buf, k);
    RecordsOfPrefix(chain, m, 2);
    RecordsTile(chain, 2);
    var rs, j := Records(chain, 2), |Records(ChainOf(b), 2)|;
    BuildGrows(rs, j);
    if m == |chain| {
      assert chain[..m] == chain;
      assert rs[..j] == rs;
    }
  }

  /** Bytes behind wTotalLength are never looked at. */
  lemma BytesBehindTotalLengthDoNotMatter(buf: seq<byte>, junk: seq<byte>)
    requires Parse(buf).Ok? && Le16(buf[2], buf[3]) <= |buf|
    ensures Parse(buf + junk) == Parse(buf)
  {
    var b := buf + junk;
    assert forall i :: 0 <= i < 9 ==> b[i] == buf[i];
    assert ChainOf(b) == ChainOf(buf);
  }

  // ---------------------------------------------------------------------------------------------
  // Placement and counts
  // ---------------------------------------------------------------------------------------------

  function InterfaceCount(rs: seq<seq<byte>>): nat {
    if rs == [] then 0
    else InterfaceCount(rs[..|rs| - 1]) + if InterfaceAt(rs[|rs| - 1]).Ok? then 1 else 0
  }

  /** Endpoint records behind the last interface record. */
  function EndpointCount(rs: seq<seq<byte>>): nat {
    if rs == [] || InterfaceAt(rs[|rs| - 1]).Ok? then 0
    else EndpointCount(rs[..|rs| - 1]) + if EndpointAt(rs[|rs| - 1]).Ok? then 1 else 0
  }

  /** Endpoint records behind the first interface record. */
  function EndpointsBehindFirst(rs: seq<seq<byte>>): nat {
    if rs == [] then 0
    else
      var front := rs[..|rs| - 1];
      EndpointsBehindFirst(front) + if EndpointAt(rs[|rs| - 1]).Ok? && 0 < InterfaceCount(front) then 1 else 0
  }

  /** Endpoints of all interfaces together. */
  function TotalEndpoints(ifs: seq<Interface>): nat {
    if ifs == [] then 0 else TotalEndpoints(ifs[..|ifs| - 1]) + |ifs[|ifs| - 1].endpoints|
  }

  lemma AttachTotal(ifs: seq<Interface>, r: seq<byte>)
    ensures TotalEndpoints(Attach(ifs, r)) == TotalEndpoints(ifs) + if EndpointAt(r).Ok? && ifs != [] then 1 else 0
  {
    var out := Attach(ifs, r);
    if InterfaceAt(r).Ok? {
      assert out[..|out| - 1] == ifs;
    } else if ifs != [] {
      assert out[..|out| - 1] == ifs[..|ifs| - 1];
    }
  }

  /** As many interfaces as interface records, under the last one the endpoint records behind it, and in all
      as many endpoints as there are endpoint records behind the first interface record. */
  lemma {:induction false} BuildCounts(rs: seq<seq<byte>>)
    ensures |Build(rs)| == InterfaceCount(rs)
    ensures Build(rs) != [] ==> |Build(rs)[|Build(rs)| - 1].endpoints| == EndpointCount(rs)
    ensures TotalEndpoints(Build(rs)) == EndpointsBehindFirst(rs)
    decreases |rs|
  {
    if rs != [] {
      BuildCounts(rs[..|rs| - 1]);
      AttachTotal(Build(rs[..|rs| - 1]), rs[|rs| - 1]);
    }
  }

  /**
   Every endpoint record behind an interface record is found in the tree under the nearest
   preceding interface record, at the position given by the endpoint records between the two.
   */
  lemma EndpointPlacement(rs: seq<seq<byte>>, i: nat)
    requires i < |rs| && EndpointAt(rs[i]).Ok? && 0 < InterfaceCount(rs[..i])
    ensures var t, k, j := Build(rs), InterfaceCount(rs[..i]) - 1, EndpointCount(rs[..i]);
            && k < |t| && j < |t[k].endpoints|
            && t[k].endpoints[j].(companion := None) == EndpointAt(rs[i]).value
            && var e, r := t[k].endpoints[j], rs[i];
               && e.address == r[2] && e.attributes == r[3]
               && e.maxPacketSize == (r[4] as int) + 0x100 * (r[5] as int) && e.interval == r[6]
  {
    BuildCounts(rs[..i]);
    BuildGrows(rs, i + 1);
    assert rs[..i + 1] == rs[..i] + [rs[i]];
    BuildSnoc(rs[..i], rs[i]);
  }

  lemma InterfaceFields(r: seq<byte>, x: Interface)
    requires InterfaceAt(r).Ok? && x.(endpoints := [], hid := None) == InterfaceAt(r).value
    ensures && x.number == r[2] && x.alternateSetting == r[3] && x.numEndpoints == r[4]
            && x.class_ == r[5] && x.subClass == r[6] && x.protocol == r[7] && x.index == r[8]
  {
  }

  /** The interfaces of the tree are the interface records, in order. */
  lemma InterfacePlacement(rs: seq<seq<byte>>, i: nat)
    requires i < |rs| && InterfaceAt(rs[i]).Ok?
    ensures var t, k := Build(rs), InterfaceCount(rs[..i]);
            && k < |t| == InterfaceCount(rs)
            && t[k].(endpoints := [], hid := None) == InterfaceAt(rs[i]).value
            && var x, r := t[k], rs[i];
               && x.number == r[2] && x.alternateSetting == r[3] && x.numEndpoints == r[4]
               && x.class_ == r[5] && x.subClass == r[6] && x.protocol == r[7] && x.index == r[8]
  {
    BuildCounts(rs[..i]);
    BuildCounts(rs);
    BuildGrows(rs, i + 1);
    assert Build(rs[..i + 1]) == Build(rs[..i]) + [InterfaceAt(rs[i]).value] by {
      assert rs[..i + 1] == rs[..i] + [rs[i]];
      BuildSnoc(rs[..i], rs[i]);
    }
    assert Build(rs)[|Build(rs[..i])|].(endpoints := [], hid := None) == InterfaceAt(rs[i]).value;
    InterfaceFields(rs[i], Build(rs)[|Build(rs[..i])|]);
  }

  // ---------------------------------------------------------------------------------------------
  // Records the parser does not know
  // ---------------------------------------------------------------------------------------------

  /** A record of another type, or of a known type but too short to be read. */
  predicate Ignorable(r: seq<byte>)
    requires 2 <= |r|
  {
    && !(r[1] == INTERFACE && 9 <= |r|)
    && !(r[1] == ENDPOINT && 7 <= |r|)
    && !(r[1] == HID && 9 <= |r|)
    && !(r[1] == COMPANION && 6 <= |r|)
  }

  /** A record that has no interface or endpoint to hang on, or repeats what hangs there already. */
  predicate HasNoEffect(ifs: seq<Interface>, r: seq<byte>)
    requires 2 <= |r|
  {
    || Ignorable(r)
    || (r[1] != INTERFACE && ifs == [])
    || (r[1] == HID && Some(HidAt(r).value) == ifs[|ifs| - 1].hid)
    || (r[1] == COMPANION &&
          var es := ifs[|ifs| - 1].endpoints;
          es == [] || Some(CompanionAt(r).value) == es[|es| - 1].companion)
  }

  /** Exactly these records leave the tree as it is. */
  lemma AttachChangesNothing(ifs: seq<Interface>, r: seq<byte>)
    requires 2 <= |r|
    ensures Attach(ifs, r) == ifs <==> HasNoEffect(ifs, r)
  {
    var out := Attach(ifs, r);
    if !Ignorable(r) && ifs != [] && r[1] != INTERFACE {
      var last, now := ifs[|ifs| - 1], out[|ifs| - 1];
      if r[1] == COMPANION && last.endpoints != [] {
        var k := |last.endpoints| - 1;
        assert now.endpoints[k] == last.endpoints[k].(companion := Some(CompanionAt(r).value));
        if now.endpoints[k] == last.endpoints[k] {
          assert now.endpoints == last.endpoints;
        }
      }
    }
  }

  lemma {:induction false} BuildIgnores(front: seq<seq<byte>>, u: seq<byte>, back: seq<seq<byte>>)
    requires 2 <= |u| && Ignorable(u)
    ensures Build(front + [u] + back) == Build(front + back)
    decreases |back|
  {
    if back == [] {
      BuildSnoc(front, u);
      assert front + [u] + back == front + [u] && front + back == front;
    } else {
      var less, r := back[..|back| - 1], back[|back| - 1];
      BuildIgnores(front, u, less);
      BuildSnoc(front + [u] + less, r);
      BuildSnoc(front + less, r);
      assert front + [u] + back == front + [u] + less + [r];
      assert front + back == front + less + [r];
    }
  }

  lemma BuildOfInserted(buf: seq<byte>, i: nat, u: seq<byte>)
    requires 9 <= |buf| && i <= |Records(ChainOf(buf), 2)|
    requires IsRecord(u, 2) && Ignorable(u) && Le16(buf[2], buf[3]) + |u| <= 0xFFFF
    ensures Build(Records(ChainOf(Inserted(buf, Boundary(buf, 9, i, 2), u)), 2)) == Build(Records(ChainOf(buf), 2))
  {
    var rs := Records(ChainOf(buf), 2);
    RecordsOfInserted(buf, 9, i, u, 2);
    assert Build(rs[..i] + [u] + rs[i..]) == Build(rs) by {
      BuildIgnores(rs[..i], u, rs[i..]);
      assert rs[..i] + rs[i..] == rs;
    }
  }

  /** Equal headers, apart from wTotalLength, and chains that fold alike give equal configurations. */
  lemma ParseOfSameFold(buf: seq<byte>, b: seq<byte>)
    requires 9 <= |buf| && 9 <= |b| && buf[1] == b[1] == CONFIG && (forall k :: 4 <= k < 9 ==> b[k] == buf[k])
    requires Build(Records(ChainOf(b), 2)) == Build(Records(ChainOf(buf), 2))
    ensures Parse(b) == Ok(Parse(buf).value.(totalLength := Le16(b[2], b[3])))
  {
  }

  /** Inserting an ignorable record at any record boundary leaves the interfaces as they were. */
  lemma UnknownRecordsAreSkipped(buf: seq<byte>, i: nat, u: seq<byte>)
    requires Parse(buf).Ok? && i <= |Records(ChainOf(buf), 2)|
    requires IsRecord(u, 2) && Ignorable(u)
    requires Le16(buf[2], buf[3]) + |u| <= 0xFFFF
    ensures var c := Parse(buf).value;
            Parse(Inserted(buf, Boundary(buf, 9, i, 2), u)) == Ok(c.(totalLength := c.totalLength + |u|))
  {
    var b := Inserted(buf, Boundary(buf, 9, i, 2), u);
    assert Parse(b) == Ok(Parse(buf).value.(totalLength := Le16(b[2], b[3]))) by {
      BuildOfInserted(buf, i, u);
      HeaderOfInserted(buf, 9, Boundary(buf, 9, i, 2), u);
      ParseOfSameFold(buf, b);
    }
    assert Le16(b[2], b[3]) == Le16(buf[2], buf[3]) + |u| by {
      HeaderOfInserted(buf, 9, Boundary(buf, 9, i, 2), u);
    }
  }
}
