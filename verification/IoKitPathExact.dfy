/**
 Exactly which device paths are accepted, and as what: in terms of the characters of the path alone, for every
 path, with or without the prefix.
 */
module IoKitPathExact {
  import opened UsbBase
  import opened IoKitPath

  ghost predicate Blank(w: string) {
    forall i :: 0 <= i < |w| ==> IsWhitespace(w[i])
  }

  /** No white space at either end. */
  predicate Tight(s: string) {
    s == "" || (!IsWhitespace(s[0]) && !IsWhitespace(s[|s| - 1]))
  }

  // Trimming.

  lemma {:induction false} TrimStartParts(s: string) returns (w: string)
    ensures Blank(w) && s == w + TrimStart(s) && (TrimStart(s) == "" || !IsWhitespace(TrimStart(s)[0]))
  {
    if s != "" && IsWhitespace(s[0]) {
      var rest := s[1..];
      var v := TrimStartParts(rest);
      w := [s[0]] + v;
      ConcatAssociative([s[0]], v, TrimStart(rest));
      assert s == [s[0]] + rest;
    } else {
      w := "";
    }
  }

  lemma {:induction false} TrimEndParts(s: string) returns (w: string)
    ensures Blank(w) && s == TrimEnd(s) + w && (TrimEnd(s) == "" || !IsWhitespace(TrimEnd(s)[|TrimEnd(s)| - 1]))
    ensures TrimEnd(s) <= s
  {
    if s != "" && IsWhitespace(s[|s| - 1]) {
      var front, last := s[..|s| - 1], [s[|s| - 1]];
      var v := TrimEndParts(front);
      w := v + last;
      ConcatAssociative(TrimEnd(front), v, last);
      assert s == front + last;
    } else {
      w := "";
    }
  }

  lemma {:induction false} TrimStartOf(w: string, s: string)
    requires Blank(w) && (s == "" || !IsWhitespace(s[0]))
    ensures TrimStart(w + s) == s
  {
    if w == "" {
      assert w + s == s;
    } else {
      TrimStartOf(w[1..], s);
      assert (w + s)[1..] == w[1..] + s;
    }
  }

  lemma {:induction false} TrimEndOf(s: string, w: string)
    requires Blank(w) && (s == "" || !IsWhitespace(s[|s| - 1]))
    ensures TrimEnd(s + w) == s
    decreases |w|
  {
    if w == "" {
      assert s + w == s;
    } else {
      TrimEndOf(s, w[..|w| - 1]);
      assert (s + w)[..|s + w| - 1] == s + w[..|w| - 1];
    }
  }

  /** `s` is `t` between white space. */
  ghost predicate Padded(s: string, t: string) {
    exists v, w :: Blank(v) && Blank(w) && s == v + t + w
  }

  lemma PaddedBy(s: string, v: string, t: string, w: string)
    requires Blank(v) && Blank(w) && s == v + t + w
    ensures Padded(s, t)
  {
  }

  lemma TrimIsPadded(s: string)
    ensures Tight(Trim(s)) && Padded(s, Trim(s))
  {
    var v := TrimStartParts(s);
    var w := TrimEndParts(TrimStart(s));
    ConcatAssociative(v, Trim(s), w);
    PaddedBy(s, v, Trim(s), w);
    if Trim(s) != "" {
      assert Trim(s)[0] == TrimStart(s)[0];
    }
  }

  lemma TrimOfPadded(v: string, t: string, w: string)
    requires Blank(v) && Blank(w) && Tight(t)
    ensures Trim(v + t + w) == t
  {
    if t == "" {
      TrimStartOf(v + w, "");
      assert v + t + w == v + w + "";
    } else {
      TrimStartOf(v, t + w);
      TrimEndOf(t, w);
      ConcatAssociative(v, t, w);
    }
  }

  /** Trimming takes exactly the white space at both ends away. */
  lemma TrimExactly(s: string, t: string)
    ensures Trim(s) == t <==> Tight(t) && Padded(s, t)
  {
    TrimIsPadded(s);
    if Tight(t) && Padded(s, t) {
      var v, w :| Blank(v) && Blank(w) && s == v + t + w;
      TrimOfPadded(v, t, w);
    }
  }

  // Numbers.

  /** `s` is a decimal number: an optional plus sign and at least one digit. */
  ghost predicate IsNumber(s: string, digits: string) {
    && digits != "" && AllDigits(digits)
    && (s == digits || s == "+" + digits)
  }

  /** A leading zero does not count, and a number without one is what is printed for its value: so the value of
      a digit string is the usual one. */
  lemma {:induction false} LeadingZero(d: string)
    requires AllDigits(d)
    ensures AllDigits("0" + d)
    ensures DecimalValue("0" + d) == DecimalValue(d)
    decreases |d|
  {
    var s := "0" + d;
    if d == "" {
      assert s[..0] == "";
    } else {
      LeadingZero(d[..|d| - 1]);
      assert s[..|s| - 1] == "0" + d[..|d| - 1];
    }
  }

  lemma {:induction false} ValuePrints(d: string)
    requires d != "" && AllDigits(d) && (d[0] != '0' || |d| == 1)
    ensures Decimal(DecimalValue(d)) == d && (d[0] != '0' ==> 0 < DecimalValue(d))
    decreases |d|
  {
    var n := |d| - 1;
    assert IsDigit(d[n]);
    if n == 0 {
      assert d[..0] == "";
      assert d == [d[0]];
    } else {
      var front, digit := d[..n], d[n] as int - '0' as int;
      ValuePrints(front);
      var v := DecimalValue(front);
      assert DecimalValue(d) == 10 * v + digit && 0 < v;
      assert (10 * v + digit) / 10 == v && (10 * v + digit) % 10 == digit;
      assert d == front + [DigitChar(digit)];
    }
  }

  lemma ParseU8Exactly(s: string, n: byte)
    ensures ParseU8(s) == Some(n) <==> exists d :: IsNumber(s, d) && DecimalValue(d) == n
  {
    var digits := if s != "" && s[0] == '+' then s[1..] else s;
    assert s != "" && s[0] == '+' ==> s == "+" + digits;
    if ParseU8(s) == Some(n) {
      assert IsNumber(s, digits) && DecimalValue(digits) == n;
    }
    if d :| IsNumber(s, d) && DecimalValue(d) == n {
      assert IsDigit(d[0]);
      assert d == digits;
    }
  }

  // Parts.

  /** The first equals sign of the part, if there is one, stands behind `k` and in front of `v`. */
  ghost predicate Halved(part: string, k: string, v: string) {
    '=' !in k && (part == k || part == k + "=" + v)
  }

  /** The part has this key: the key between white space, alone or in front of an equals sign. */
  ghost predicate Keyed(part: string, key: string) {
    exists k, v :: Padded(k, key) && Halved(part, k, v)
  }

  /** The part says this number under this key. */
  ghost predicate Tells(part: string, key: string, n: byte) {
    exists k, v, s, d ::
      && Padded(k, key) && Halved(part, k, v) && part != k
      && Padded(v, s) && IsNumber(s, d) && DecimalValue(d) == n
  }

  lemma KeyedBy(part: string, key: string, k: string, v: string)
    requires Padded(k, key) && Halved(part, k, v)
    ensures Keyed(part, key)
  {
  }

  lemma {:induction false} BeforeIndex(s: string, c: char)
    ensures c !in s[..IndexOf(s, c)]
  {
    if s != "" && s[0] != c {
      BeforeIndex(s[1..], c);
      assert s[..IndexOf(s, c)] == [s[0]] + s[1..][..IndexOf(s[1..], c)];
    }
  }

  /** The front of a part up to its first equals sign, and what is behind. */
  lemma Halves(part: string, k: string, v: string)
    requires Halved(part, k, v)
    ensures part[..IndexOf(part, '=')] == k
    ensures part == k ==> IndexOf(part, '=') == |part|
    ensures part != k ==> IndexOf(part, '=') < |part| && part[IndexOf(part, '=') + 1..] == v
  {
    if part == k {
      IndexOfNone(k, '=');
    } else {
      IndexOfFirst(k, '=', v);
    }
  }

  lemma KeyExactly(part: string, key: string)
    requires Tight(key)
    ensures KeyOf(part) == key <==> Keyed(part, key)
  {
    var i := IndexOf(part, '=');
    var k := part[..i];
    TrimExactly(k, key);
    BeforeIndex(part, '=');
    if KeyOf(part) == key {
      if i == |part| {
        KeyedBy(part, key, k, "");
      } else {
        AtIndex(part, i, '=');
        KeyedBy(part, key, k, part[i + 1..]);
      }
    }
    if Keyed(part, key) {
      var k', v :| Padded(k', key) && Halved(part, k', v);
      Halves(part, k', v);
    }
  }

  lemma NumberIsTight(s: string, d: string)
    requires IsNumber(s, d)
    ensures Tight(s)
  {
    assert IsDigit(d[0]) && IsDigit(d[|d| - 1]);
  }

  lemma TellsBy(part: string, key: string, n: byte, k: string, v: string, s: string, d: string)
    requires Padded(k, key) && Halved(part, k, v) && part != k
    requires Padded(v, s) && IsNumber(s, d) && DecimalValue(d) == n
    ensures Tells(part, key, n)
  {
  }

  lemma NoNumberInNothing(n: byte)
    ensures ParseU8(Trim("")) != Some(n)
  {
  }

  lemma AtIndex(s: string, i: nat, c: char)
    requires i < |s| && s[i] == c
    ensures s == s[..i] + [c] + s[i + 1..]
  {
  }

  lemma ReadsTells(part: string, key: string, n: byte)
    requires Tight(key) && KeyOf(part) == key && ParseU8(ValueOf(part)) == Some(n)
    ensures Tells(part, key, n)
  {
    var i := IndexOf(part, '=');
    var k := part[..i];
    TrimExactly(k, key);
    BeforeIndex(part, '=');
    if i == |part| {
      NoNumberInNothing(n);
    } else {
      var v, s := part[i + 1..], ValueOf(part);
      AtIndex(part, i, '=');
      TrimExactly(v, s);
      ParseU8Exactly(s, n);
      var d :| IsNumber(s, d) && DecimalValue(d) == n;
      TellsBy(part, key, n, k, v, s, d);
    }
  }

  lemma TellsReads(part: string, key: string, n: byte)
    requires Tight(key) && Tells(part, key, n)
    ensures KeyOf(part) == key && ParseU8(ValueOf(part)) == Some(n)
  {
    var k, v, s, d :|
      && Padded(k, key) && Halved(part, k, v) && part != k
      && Padded(v, s) && IsNumber(s, d) && DecimalValue(d) == n;
    Halves(part, k, v);
    TrimExactly(k, key);
    NumberIsTight(s, d);
    TrimExactly(v, s);
    ParseU8Exactly(s, n);
  }

  lemma ValueExactly(part: string, key: string, n: byte)
    requires Tight(key)
    ensures KeyOf(part) == key && ParseU8(ValueOf(part)) == Some(n) <==> Tells(part, key, n)
  {
    if KeyOf(part) == key && ParseU8(ValueOf(part)) == Some(n) {
      ReadsTells(part, key, n);
    }
    if Tells(part, key, n) {
      TellsReads(part, key, n);
    }
  }

  // Paths.

  /** Part `i` says this number under the key, and no later part has the key. */
  ghost predicate LastAt(parts: seq<string>, key: string, n: byte, i: nat) {
    && i < |parts| && Tells(parts[i], key, n)
    && forall j :: i < j < |parts| ==> !Keyed(parts[j], key)
  }

  /** The last part with the key says this number. */
  ghost predicate LastTells(parts: seq<string>, key: string, n: byte) {
    exists i: nat :: LastAt(parts, key, n, i)
  }

  lemma LastOfFront(parts: seq<string>, key: string, n: byte, i: nat)
    requires parts != [] && !Keyed(parts[|parts| - 1], key) && i < |parts| - 1
    ensures LastAt(parts, key, n, i) <==> LastAt(parts[..|parts| - 1], key, n, i)
  {
    var front := parts[..|parts| - 1];
    assert forall j :: 0 <= j < |front| ==> front[j] == parts[j];
  }

  lemma {:induction false} LastValueExactly(parts: seq<string>, key: string, n: byte)
    requires Tight(key)
    ensures LastValue(parts, key) == Some(n) <==> LastTells(parts, key, n)
    decreases |parts|
  {
    if parts != [] {
      var k := |parts| - 1;
      var front := parts[..k];
      KeyExactly(parts[k], key);
      ValueExactly(parts[k], key, n);
      LastValueExactly(front, key, n);
      if Keyed(parts[k], key) {
        if Tells(parts[k], key, n) {
          assert LastAt(parts, key, n, k);
        }
      } else {
        if i: nat :| LastAt(front, key, n, i) {
          LastOfFront(parts, key, n, i);
        }
        if i: nat :| LastAt(parts, key, n, i) {
          ValueExactly(parts[i], key, n);
          KeyExactly(parts[i], key);
          LastOfFront(parts, key, n, i);
        }
      }
    }
  }

  /** The path consists of these parts between commas, behind the prefix if it has it. */
  ghost predicate ConsistsOf(path: string, parts: seq<string>) {
    && parts != [] && (forall i :: 0 <= i < |parts| ==> ',' !in parts[i])
    && path == (if PREFIX <= path then PREFIX else "") + Join(parts, ',')
  }

  lemma NormalizedIs(path: string, parts: seq<string>)
    requires ConsistsOf(path, parts)
    ensures Normalized(path) == Join(parts, ',')
  {
    var joined := Join(parts, ',');
    if PREFIX <= path {
      assert (PREFIX + joined)[|PREFIX|..] == joined;
    } else {
      assert "" + joined == joined;
    }
  }

  /**
   Acceptance. A path is read as bus and address if and only if the last of its parts with the key `bus` says that
   bus, and the last one with the key `addr` that address.
   */
  lemma ParsesExactly(path: string, parts: seq<string>, bus: byte, addr: byte)
    requires ConsistsOf(path, parts)
    ensures Parse(path) == Ok((bus, addr)) <==> LastTells(parts, "bus", bus) && LastTells(parts, "addr", addr)
  {
    SplitOfJoin(parts, ',');
    NormalizedIs(path, parts);
    LastValueExactly(parts, "bus", bus);
    LastValueExactly(parts, "addr", addr);
  }

  /** Refusal. A path is refused exactly when the last part for one of the keys says no number, and the bus is
      missed first. */
  lemma RefusesExactly(path: string, parts: seq<string>)
    requires ConsistsOf(path, parts)
    ensures Parse(path) == Err(Other("missing bus")) <==> forall bus: byte :: !LastTells(parts, "bus", bus)
    ensures Parse(path) == Err(Other("missing addr")) <==>
            (exists bus: byte :: LastTells(parts, "bus", bus)) && forall addr: byte :: !LastTells(parts, "addr", addr)
  {
    SplitOfJoin(parts, ',');
    NormalizedIs(path, parts);
    forall n: byte
      ensures LastValue(parts, "bus") == Some(n) <==> LastTells(parts, "bus", n)
      ensures LastValue(parts, "addr") == Some(n) <==> LastTells(parts, "addr", n)
    {
      LastValueExactly(parts, "bus", n);
      LastValueExactly(parts, "addr", n);
    }
    var bus, addr := LastValue(parts, "bus"), LastValue(parts, "addr");
    assert bus.Some? ==> LastTells(parts, "bus", bus.value);
    assert addr.Some? ==> LastTells(parts, "addr", addr.value);
  }

  lemma {:induction false} JoinOfSplit(s: string, c: char)
    ensures Split(s, c) != [] && Join(Split(s, c), c) == s
    ensures forall i :: 0 <= i < |Split(s, c)| ==> c !in Split(s, c)[i]
    decreases |s|
  {
    var i := IndexOf(s, c);
    BeforeIndex(s, c);
    if i == |s| {
      assert s[..i] == s;
    } else {
      JoinOfSplit(s[i + 1..], c);
      assert Split(s, c)[1..] == Split(s[i + 1..], c);
      assert s == s[..i] + [c] + s[i + 1..];
    }
  }

  /** Every path consists of some parts. */
  lemma PartsExist(path: string) returns (parts: seq<string>)
    ensures ConsistsOf(path, parts)
  {
    var rest := Normalized(path);
    JoinOfSplit(rest, ',');
    parts := Split(rest, ',');
    if PREFIX <= path {
      assert path == PREFIX + path[|PREFIX|..];
    } else {
      assert path == "" + path;
    }
  }

  /** The value of a lower-case hexadecimal digit. */
  function HexDigit(c: char): int {
    if IsDigit(c) then c as int - '0' as int else c as int - 'a' as int + 10
  }

  /** The numbers printed behind bus and address are four lower-case hexadecimal digits of their value. */
  lemma HexReadsBack(w: u16)
    ensures var s := Hex4(w);
            && |s| == 4 && (forall i :: 0 <= i < 4 ==> IsDigit(s[i]) || 'a' <= s[i] <= 'f')
            && w == HexDigit(s[0]) * 0x1000 + HexDigit(s[1]) * 0x100 + HexDigit(s[2]) * 0x10 + HexDigit(s[3])
  {
    HexCharIs(w / 0x1000);
    HexCharIs(w / 0x100 % 0x10);
    HexCharIs(w / 0x10 % 0x10);
    HexCharIs(w % 0x10);
    HexDigitsSum(w);
  }

  lemma HexDigitsSum(w: nat)
    ensures w == w / 0x1000 * 0x1000 + w / 0x100 % 0x10 * 0x100 + w / 0x10 % 0x10 * 0x10 + w % 0x10
  {
    assert w / 0x100 == w / 0x10 / 0x10 && w / 0x1000 == w / 0x100 / 0x10;
  }

  lemma HexCharIs(n: nat)
    requires n < 16
    ensures HexDigit(HexChar(n)) == n && (IsDigit(HexChar(n)) || 'a' <= HexChar(n) <= 'f')
  {
  }
}
