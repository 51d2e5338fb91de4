/** The textual device path of the macOS backend: how it is printed and how it is read back. */
module IoKitPath {
  import opened UsbBase

  const PREFIX := "iokit:"

  // ---------------------------------------------------------------------------------------------
  // Text, as the standard library of the source language treats it
  // ---------------------------------------------------------------------------------------------

  /** The characters with the Unicode property White_Space. */
  predicate IsWhitespace(c: char) {
    var n := c as int;
    || 0x09 <= n <= 0x0D || n == 0x20 || n == 0x85 || n == 0xA0 || n == 0x1680
    || 0x2000 <= n <= 0x200A || n == 0x2028 || n == 0x2029 || n == 0x202F || n == 0x205F || n == 0x3000
  }

  function TrimStart(s: string): string {
    if s != "" && IsWhitespace(s[0]) then TrimStart(s[1..]) else s
  }

  function TrimEnd(s: string): string {
    if s != "" && IsWhitespace(s[|s| - 1]) then TrimEnd(s[..|s| - 1]) else s
  }

  function Trim(s: string): string {
    TrimEnd(TrimStart(s))
  }

  /** Characters in front of the first `c`, or all of them. */
  function IndexOf(s: string, c: char): (i: nat)
    ensures i <= |s|
    ensures i < |s| ==> s[i] == c
  {
    if s == "" || s[0] == c then 0 else 1 + IndexOf(s[1..], c)
  }

  function Split(s: string, c: char): seq<string>
    decreases |s|
  {
    var i := IndexOf(s, c);
    if i == |s| then [s] else [s[..i]] + Split(s[i + 1..], c)
  }

  function Join(parts: seq<string>, c: char): string
    requires parts != []
  {
    if |parts| == 1 then parts[0] else parts[0] + [c] + Join(parts[1..], c)
  }

  predicate IsDigit(c: char) {
    '0' <= c <= '9'
  }

  predicate AllDigits(s: string) {
    forall i :: 0 <= i < |s| ==> IsDigit(s[i])
  }

  function DecimalValue(s: string): nat
    requires AllDigits(s)
  {
    if s == "" then 0
    else
      assert IsDigit(s[|s| - 1]);
      10 * DecimalValue(s[..|s| - 1]) + (s[|s| - 1] as int - '0' as int)
  }

  /** `parse::<u8>`: an optional plus sign, then decimal digits only, and a value below 256. */
  function ParseU8(s: string): Option<byte> {
    var digits := if s != "" && s[0] == '+' then s[1..] else s;
    if digits == "" || !AllDigits(digits) then None
    else
      var v := DecimalValue(digits);
      if v < 0x100 then Some(v) else None
  }

  // ---------------------------------------------------------------------------------------------
  // The parser
  // ---------------------------------------------------------------------------------------------

  function KeyOf(part: string): string {
    Trim(part[..IndexOf(part, '=')])
  }

  function ValueOf(part: string): string {
    var i := IndexOf(part, '=');
    Trim(if i < |part| then part[i + 1..] else "")
  }

  function Normalized(path: string): string {
    if PREFIX <= path then path[|PREFIX|..] else path
  }

  /** The last part with the key decides; what it says may be no number. */
  function LastValue(parts: seq<string>, key: string): Option<byte> {
    if parts == [] then None
    else if KeyOf(parts[|parts| - 1]) == key then ParseU8(ValueOf(parts[|parts| - 1]))
    else LastValue(parts[..|parts| - 1], key)
  }

  function Parse(path: string): Result<(byte, byte)> {
    var parts := Split(Normalized(path), ',');
    var bus, addr := LastValue(parts, "bus"), LastValue(parts, "addr");
    if bus.None? then Err(Other("missing bus"))
    else if addr.None? then Err(Other("missing addr"))
    else Ok((bus.value, addr.value))
  }

  /** `parse_iokit_path`. */
  method ParseIoKitPath(path: string) returns (r: Result<(byte, byte)>)
    ensures r == Parse(path)
  {
    var normalized := if PREFIX <= path then path[|PREFIX|..] else path;
    var bus: Option<byte>, addr: Option<byte> := None, None;
    var parts := Split(normalized, ',');
    for i := 0 to |parts|
      invariant bus == LastValue(parts[..i], "bus")
      invariant addr == LastValue(parts[..i], "addr")
    {
      assert parts[..i + 1][..i] == parts[..i];
      var key := KeyOf(parts[i]);
      var val := ValueOf(parts[i]);
      if key == "bus" {
        bus := ParseU8(val);
      } else if key == "addr" {
        addr := ParseU8(val);
      }
    }
    assert parts[..|parts|] == parts;
    if bus.None? {
      return Err(Other("missing bus"));
    }
    if addr.None? {
      return Err(Other("missing addr"));
    }
    return Ok((bus.value, addr.value));
  }

  // ---------------------------------------------------------------------------------------------
  // The printer
  // ---------------------------------------------------------------------------------------------

  function DigitChar(n: nat): (c: char)
    requires n < 10
    ensures IsDigit(c) && c as int - '0' as int == n
  {
    ('0' as int + n) as char
  }

  function Decimal(n: nat): (s: string)
    ensures s != "" && AllDigits(s)
  {
    if n < 10 then [DigitChar(n)] else Decimal(n / 10) + [DigitChar(n % 10)]
  }

  function HexChar(n: nat): (c: char)
    requires n < 16
    ensures IsDigit(c) || 'a' <= c <= 'f'
  {
    if n < 10 then DigitChar(n) else ('a' as int + (n - 10)) as char
  }

  function Hex4(w: u16): string {
    [HexChar(w / 0x1000), HexChar(w / 0x100 % 0x10), HexChar(w / 0x10 % 0x10), HexChar(w % 0x10)]
  }

  function PrintedParts(bus: byte, addr: byte, vid: u16, pid: u16): seq<string> {
    ["bus" + "=" + Decimal(bus), "addr" + "=" + Decimal(addr), "vid" + "=" + Hex4(vid), "pid" + "=" + Hex4(pid)]
  }

  function Print(bus: byte, addr: byte, vid: u16, pid: u16): string {
    var p := PrintedParts(bus, addr, vid, pid);
    PREFIX + p[0] + "," + p[1] + "," + p[2] + "," + p[3]
  }

  // ---------------------------------------------------------------------------------------------
  // Laws
  // ---------------------------------------------------------------------------------------------

  lemma {:induction false} DecimalReadsBack(n: nat)
    ensures DecimalValue(Decimal(n)) == n
  {
    if 10 <= n {
      DecimalReadsBack(n / 10);
      var s := Decimal(n);
      assert s[..|s| - 1] == Decimal(n / 10);
    } else {
      assert Decimal(n)[..0] == "";
    }
  }

  lemma {:induction false} IndexOfFirst(a: string, c: char, b: string)
    requires c !in a
    ensures IndexOf(a + [c] + b, c) == |a|
  {
    if a != "" {
      IndexOfFirst(a[1..], c, b);
      assert (a + [c] + b)[1..] == a[1..] + [c] + b;
    }
  }

  lemma {:induction false} IndexOfNone(a: string, c: char)
    requires c !in a
    ensures IndexOf(a, c) == |a|
  {
    if a != "" {
      IndexOfNone(a[1..], c);
    }
  }

  lemma SplitStep(part: string, c: char, rest: string)
    requires c !in part
    ensures Split(part + [c] + rest, c) == [part] + Split(rest, c)
  {
    IndexOfFirst(part, c, rest);
    var s := part + [c] + rest;
    assert s[..|part|] == part && s[|part| + 1..] == rest;
  }

  lemma {:induction false} SplitOfJoin(parts: seq<string>, c: char)
    requires parts != [] && forall i :: 0 <= i < |parts| ==> c !in parts[i]
    ensures Split(Join(parts, c), c) == parts
  {
    if |parts| == 1 {
      IndexOfNone(parts[0], c);
    } else {
      SplitOfJoin(parts[1..], c);
      SplitStep(parts[0], c, Join(parts[1..], c));
    }
  }

  /** A path made of the prefix and comma-free parts: the last `bus` and the last `addr` part decide,
      and it is refused exactly when one of them is absent or no number below 256. */
  lemma LastPartsDecide(parts: seq<string>)
    requires parts != [] && forall i :: 0 <= i < |parts| ==> ',' !in parts[i]
    ensures var r, bus, addr := Parse(PREFIX + Join(parts, ',')), LastValue(parts, "bus"), LastValue(parts, "addr");
            && (r.Ok? <==> bus.Some? && addr.Some?)
            && (r.Ok? ==> r.value == (bus.value, addr.value))
  {
    SplitOfJoin(parts, ',');
    assert (PREFIX + Join(parts, ','))[|PREFIX|..] == Join(parts, ',');
  }

  lemma TrimKeeps(s: string)
    requires s == "" || (!IsWhitespace(s[0]) && !IsWhitespace(s[|s| - 1]))
    ensures Trim(s) == s
  {
  }

  /** The part that is printed for a key and a number. */
  lemma NumberPart(key: string, n: byte)
    requires key != "" && '=' !in key && !IsWhitespace(key[0]) && !IsWhitespace(key[|key| - 1])
    ensures var part := key + "=" + Decimal(n);
            KeyOf(part) == key && ParseU8(ValueOf(part)) == Some(n)
  {
    var d := Decimal(n);
    var part := key + "=" + d;
    IndexOfFirst(key, '=', d);
    assert part[..|key|] == key && part[|key| + 1..] == d;
    TrimKeeps(key);
    TrimKeeps(d);
    DecimalReadsBack(n);
    assert IsDigit(d[0]) && d[0] != '+';
  }

  predicate OtherKey(part: string) {
    ',' !in part && KeyOf(part) != "bus" && KeyOf(part) != "addr"
  }

  lemma {:induction false} OtherKeysBehind(parts: seq<string>, others: seq<string>, key: string)
    requires key == "bus" || key == "addr"
    requires forall i :: 0 <= i < |others| ==> OtherKey(others[i])
    ensures LastValue(parts + others, key) == LastValue(parts, key)
    decreases |others|
  {
    if others == [] {
      assert parts + others == parts;
    } else {
      OtherKeysBehind(parts, others[..|others| - 1], key);
      assert (parts + others)[..|parts + others| - 1] == parts + others[..|others| - 1];
    }
  }

  lemma LastValueSnoc(parts: seq<string>, part: string, key: string)
    ensures LastValue(parts + [part], key) ==
            if KeyOf(part) == key then ParseU8(ValueOf(part)) else LastValue(parts, key)
  {
    assert (parts + [part])[..|parts|] == parts;
  }

  function Mixed(a: seq<string>, p: string, b: seq<string>, q: string, c: seq<string>): seq<string> {
    a + [p] + b + [q] + c
  }

  lemma LastValueOfMixed(a: seq<string>, p: string, b: seq<string>, q: string, c: seq<string>, key: string)
    requires key == "bus" || key == "addr"
    requires forall i :: 0 <= i < |b| ==> OtherKey(b[i])
    requires forall i :: 0 <= i < |c| ==> OtherKey(c[i])
    requires KeyOf(p) == "bus" && KeyOf(q) == "addr"
    ensures LastValue(Mixed(a, p, b, q, c), key) == ParseU8(ValueOf(if key == "bus" then p else q))
  {
    OtherKeysBehind(a + [p] + b + [q], c, key);
    LastValueSnoc(a + [p] + b, q, key);
    OtherKeysBehind(a + [p], b, key);
    LastValueSnoc(a, p, key);
  }

  /** `part` says number `n` under key `key`. */
  predicate Says(part: string, key: string, n: byte) {
    ',' !in part && KeyOf(part) == key && ParseU8(ValueOf(part)) == Some(n)
  }

  lemma CommaFree(a: seq<string>, p: string, b: seq<string>, q: string, c: seq<string>)
    requires ',' !in p && ',' !in q
    requires forall i :: 0 <= i < |a| ==> OtherKey(a[i])
    requires forall i :: 0 <= i < |b| ==> OtherKey(b[i])
    requires forall i :: 0 <= i < |c| ==> OtherKey(c[i])
    ensures forall i :: 0 <= i < |Mixed(a, p, b, q, c)| ==> ',' !in Mixed(a, p, b, q, c)[i]
  {
  }

  /**
   A bus part and an address part with any parts of other keys before, between and behind them are
   read back as that bus and address.
   */
  lemma MixedParses(a: seq<string>, p: string, b: seq<string>, q: string, c: seq<string>, bus: byte, addr: byte)
    requires Says(p, "bus", bus) && Says(q, "addr", addr)
    requires forall i :: 0 <= i < |a| ==> OtherKey(a[i])
    requires forall i :: 0 <= i < |b| ==> OtherKey(b[i])
    requires forall i :: 0 <= i < |c| ==> OtherKey(c[i])
    ensures Parse(PREFIX + Join(Mixed(a, p, b, q, c), ',')) == Ok((bus, addr))
  {
    CommaFree(a, p, b, q, c);
    LastValueOfMixed(a, p, b, q, c, "bus");
    LastValueOfMixed(a, p, b, q, c, "addr");
    LastPartsDecide(Mixed(a, p, b, q, c));
  }

  lemma NoCommaInDigits(d: string)
    requires AllDigits(d)
    ensures ',' !in d
  {
    assert forall i :: 0 <= i < |d| ==> IsDigit(d[i]) && d[i] != ',';
  }

  lemma NoCommaInParts(key: string, d: string)
    requires ',' !in key && ',' !in d
    ensures ',' !in key + "=" + d
  {
  }

  lemma PrintedPartSays(key: string, n: byte)
    requires key == "bus" || key == "addr"
    ensures Says(key + "=" + Decimal(n), key, n)
  {
    NumberPart(key, n);
    NoCommaInDigits(Decimal(n));
    NoCommaInParts(key, Decimal(n));
  }

  /** Round trip of a printed bus and address among any other parts. */
  lemma RoundTrip(bus: byte, addr: byte, a: seq<string>, b: seq<string>, c: seq<string>)
    requires forall i :: 0 <= i < |a| ==> OtherKey(a[i])
    requires forall i :: 0 <= i < |b| ==> OtherKey(b[i])
    requires forall i :: 0 <= i < |c| ==> OtherKey(c[i])
    ensures var parts := Mixed(a, "bus" + "=" + Decimal(bus), b, "addr" + "=" + Decimal(addr), c);
            Parse(PREFIX + Join(parts, ',')) == Ok((bus, addr))
  {
    PrintedPartSays("bus", bus);
    PrintedPartSays("addr", addr);
    MixedParses(a, "bus" + "=" + Decimal(bus), b, "addr" + "=" + Decimal(addr), c, bus, addr);
  }

  lemma HexPart(key: string, w: u16)
    requires key == "vid" || key == "pid"
    ensures OtherKey(key + "=" + Hex4(w))
  {
    var part := key + "=" + Hex4(w);
    IndexOfFirst(key, '=', Hex4(w));
    assert part[..3] == key;
    TrimKeeps(key);
  }

  lemma JoinOfFour(p: seq<string>)
    requires |p| == 4
    ensures Join(p, ',') == p[0] + "," + p[1] + "," + p[2] + "," + p[3]
  {
    assert p[1..][1..] == p[2..] && p[2..][1..] == p[3..];
    assert Join(p[2..], ',') == p[2] + "," + p[3];
    assert Join(p[1..], ',') == p[1] + "," + Join(p[2..], ',');
  }

  /** Every path the backend prints, on enumeration and on hotplug, is read back as its bus and address. */
  lemma PrintedPathParses(bus: byte, addr: byte, vid: u16, pid: u16)
    ensures Parse(Print(bus, addr, vid, pid)) == Ok((bus, addr))
  {
    var p := PrintedParts(bus, addr, vid, pid);
    var rest := [p[2], p[3]];
    HexPart("vid", vid);
    HexPart("pid", pid);
    PrintedPartSays("bus", bus);
    PrintedPartSays("addr", addr);
    MixedParses([], p[0], [], p[1], rest, bus, addr);
    MixedOfFour(p);
    PrintIsJoin(p);
  }

  lemma MixedOfFour(p: seq<string>)
    requires |p| == 4
    ensures Mixed([], p[0], [], p[1], [p[2], p[3]]) == p
  {
  }

  lemma PrintIsJoin(p: seq<string>)
    requires |p| == 4
    ensures PREFIX + Join(p, ',') == PREFIX + p[0] + "," + p[1] + "," + p[2] + "," + p[3]
  {
    JoinOfFour(p);
    RegroupFour(p[0], p[1], p[2], p[3]);
  }

  lemma RegroupFour(a: string, b: string, c: string, d: string)
    ensures PREFIX + (a + "," + b + "," + c + "," + d) == PREFIX + a + "," + b + "," + c + "," + d
  {
    var t := "," + b + "," + c + "," + d;
    assert a + "," + b + "," + c + "," + d == a + t;
    assert PREFIX + (a + t) == PREFIX + a + t;
  }
}
