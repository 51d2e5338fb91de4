/** The packet split of an isochronous transfer on Linux, and why it is the only even one. */
module LinuxIso {
  import opened UsbBase

  const MAX_ISO_PACKETS: nat := 256

  function Sum(s: seq<nat>): nat {
    if s == [] then 0 else Sum(s[..|s| - 1]) + s[|s| - 1]
  }

  /** The packet size the endpoint reports, or 1024 where it is unknown or zero. */
  function PacketHint(pipeInfo: Option<u16>): (hint: nat)
    ensures 0 < hint <= 0xFFFF
    ensures pipeInfo.Some? && pipeInfo.value != 0 ==> hint == pipeInfo.value
    ensures pipeInfo.None? || pipeInfo.value == 0 ==> hint == 1024
  {
    if pipeInfo.Some? && 0 < pipeInfo.value then pipeInfo.value else 1024
  }

  /** `n` is the least number of packets of at most `hint` bytes that hold `len` bytes. */
  ghost predicate LeastCount(len: nat, hint: nat, n: nat) {
    len <= n * hint && forall m: nat :: len <= m * hint ==> n <= m
  }

  /** An even split: packets that never grow along the list and differ by at most one byte. */
  ghost predicate Even(lengths: seq<nat>, len: nat) {
    && Sum(lengths) == len
    && (forall i, j :: 0 <= i < j < |lengths| ==> lengths[j] <= lengths[i] <= lengths[j] + 1)
  }

  function Share(len: nat, n: nat, i: nat): nat
    requires 0 < n
  {
    len / n + if i < len % n then 1 else 0
  }

  function Shares(len: nat, n: nat, k: nat): seq<nat>
    requires 0 < n
  {
    seq(k, i requires 0 <= i < k => Share(len, n, i))
  }

  lemma {:induction false} SumOfShares(len: nat, n: nat, k: nat)
    requires 0 < n
    ensures Sum(Shares(len, n, k)) == k * (len / n) + Min(k, len % n)
  {
    if 0 < k {
      SumOfShares(len, n, k - 1);
      assert Shares(len, n, k)[..k - 1] == Shares(len, n, k - 1);
      assert k * (len / n) == (k - 1) * (len / n) + len / n;
    }
  }

  lemma SharesAreEven(len: nat, n: nat)
    requires 0 < n
    ensures Even(Shares(len, n, n), len)
  {
    SumOfShares(len, n, n);
    assert len == n * (len / n) + len % n;
  }

  lemma MulMonotone(a: nat, b: nat, c: nat)
    requires a <= b
    ensures a * c <= b * c
  {
    assert b * c == a * c + (b - a) * c;
  }

  lemma LessFromProducts(a: nat, b: nat, c: nat)
    requires a * c < b * c
    ensures a < b
  {
    if b <= a {
      MulMonotone(b, a, c);
    }
  }

  lemma CountIsLeast(len: nat, hint: nat)
    requires 0 < len && 0 < hint
    ensures LeastCount(len, hint, (len + hint - 1) / hint)
    ensures 0 < (len + hint - 1) / hint
  {
    var n := (len + hint - 1) / hint;
    var r := (len + hint - 1) % hint;
    assert len + hint - 1 == n * hint + r;
    forall m: nat | len <= m * hint
      ensures n <= m
    {
      assert (m + 1) * hint == m * hint + hint;
      LessFromProducts(n, m + 1, hint);
    }
    LessFromProducts(0, n, hint);
  }

  /** With at least as many bytes as packets, and room for all of them, no share is empty or too long. */
  lemma ShareBounds(len: nat, n: nat, hint: nat, i: nat)
    requires 0 < n <= len <= n * hint && i < n
    ensures 1 <= Share(len, n, i) <= hint
  {
    var q, r := len / n, len % n;
    assert len == q * n + r;
    assert (q + 1) * n == q * n + n && (hint + 1) * n == n * hint + n;
    LessFromProducts(1, q + 1, n);
    LessFromProducts(q, hint + 1, n);
    if 0 < r {
      LessFromProducts(q, hint, n);
    }
  }

  lemma SharesFit(len: nat, n: nat, hint: nat)
    requires 0 < n <= len <= n * hint
    ensures forall i :: 0 <= i < n ==> 1 <= Share(len, n, i) <= hint
  {
    forall i | 0 <= i < n
      ensures 1 <= Share(len, n, i) <= hint
    {
      ShareBounds(len, n, hint, i);
    }
  }

  /** The least count is within the limit exactly where the limit holds the length, and no packet is empty. */
  lemma CountFits(len: nat, hint: nat, n: nat)
    requires 0 < len && 0 < hint && LeastCount(len, hint, n) && n <= MAX_ISO_PACKETS
    ensures len <= MAX_ISO_PACKETS * hint && n <= len
  {
    MulMonotone(n, MAX_ISO_PACKETS, hint);
    MulMonotone(1, hint, len);
    assert len <= len * hint;
  }

  /** A value that a 32-bit `usize` holds. */
  predicate FitsWord(x: int) {
    0 <= x < 0x1_0000_0000
  }

  /**
   The part of `isoch_transfer` that fills the packet table. `frames` is the zeroed descriptor array
   of the URB; sizes are 32-bit at least, and the one sum formed before the range is checked, of the
   length rounded up, fits that.
   */
  method Split(len: nat, pipeInfo: Option<u16>, frames: array<nat>) returns (r: Result<nat>)
    requires frames.Length == MAX_ISO_PACKETS
    modifies frames
    ensures len == 0 ==> r == Ok(0)
    ensures 0 < len <= 0x7FFF_FFFF ==> FitsWord(len + PacketHint(pipeInfo) - 1)
    ensures 0x7FFF_FFFF < len ==> r.Err?
    ensures 0 < len <= 0x7FFF_FFFF ==>
      var hint := PacketHint(pipeInfo);
      && (r.Ok? <==> len <= MAX_ISO_PACKETS * hint)
      && (r.Ok? ==>
            && 0 < r.value <= MAX_ISO_PACKETS && LeastCount(len, hint, r.value)
            && Even(frames[..r.value], len)
            && (forall i :: 0 <= i < r.value ==> 1 <= frames[i] <= hint)
            && frames[r.value..] == old(frames[r.value..]))
    ensures r.Err? || len == 0 ==> frames[..] == old(frames[..])
  {
    if len == 0 {
      return Ok(0);
    }
    if len > 0x7FFF_FFFF {
      return Err(Other("isochronous transfer buffer too large"));
    }
    var packetHint := PacketHint(pipeInfo);
    assert FitsWord(len + packetHint - 1);
    CountIsLeast(len, packetHint);
    var numPackets := (len + packetHint - 1) / packetHint;
    if numPackets < 1 {
      numPackets := 1;
    }
    if numPackets > MAX_ISO_PACKETS {
      assert !(len <= MAX_ISO_PACKETS * packetHint);
      return Err(Other("isochronous transfer requires too many packets"));
    }
    CountFits(len, packetHint, numPackets);

    var base := len / numPackets;
    var rem := len % numPackets;
    for i := 0 to numPackets
      invariant forall j :: 0 <= j < i ==> frames[j] == Share(len, numPackets, j)
      invariant forall j :: i <= j < frames.Length ==> frames[j] == old(frames[j])
    {
      var packetLen := base + if i < rem then 1 else 0;
      frames[i] := packetLen;
    }
    assert frames[..numPackets] == Shares(len, numPackets, numPackets);
    SharesAreEven(len, numPackets);
    SharesFit(len, numPackets, packetHint);
    return Ok(numPackets);
  }

  /** There is only one even split of a given length into a given number of packets. */
  lemma EvenSplitIsUnique(a: seq<nat>, b: seq<nat>, len: nat)
    requires |a| == |b| && Even(a, len) && Even(b, len)
    ensures a == b
  {
    if a != [] {
      EvenSplitIsShares(a, len);
      EvenSplitIsShares(b, len);
    }
  }

  /** Number of leading packets that are one byte longer than the last one. */
  function Longer(s: seq<nat>, low: nat): (k: nat)
    ensures k <= |s|
    ensures forall i :: 0 <= i < k ==> s[i] != low
    ensures k < |s| ==> s[k] == low
  {
    if s == [] || s[0] == low then 0 else 1 + Longer(s[1..], low)
  }

  lemma EvenSplitIsShares(s: seq<nat>, len: nat)
    requires s != [] && Even(s, len)
    ensures s == Shares(len, |s|, |s|)
  {
    var n, low := |s|, s[|s| - 1];
    var k := Longer(s, low);
    assert s[n - 1] == low;
    forall i | 0 <= i < n
      ensures s[i] == low + if i < k then 1 else 0
    {
      if k < i {
        assert s[i] <= s[k];
        assert i == n - 1 || s[n - 1] <= s[i];
      }
    }
    SumOfSteps(s, low, k);
    assert len == n * low + k;
    DivisionIsUnique(len, n, low, k);
    assert forall i :: 0 <= i < n ==> s[i] == Share(len, n, i);
  }

  lemma {:induction false} SumOfSteps(s: seq<nat>, low: nat, k: nat)
    requires forall i :: 0 <= i < |s| ==> s[i] == low + if i < k then 1 else 0
    ensures Sum(s) == |s| * low + Min(|s|, k)
  {
    if s != [] {
      SumOfSteps(s[..|s| - 1], low, k);
      assert |s| * low == (|s| - 1) * low + low;
    }
  }

  lemma DivisionIsUnique(len: nat, n: nat, q: nat, r: nat)
    requires 0 < n && r < n && len == n * q + r
    ensures len / n == q && len % n == r
  {
    var q', r' := len / n, len % n;
    assert len == n * q' + r';
    if q < q' {
      MulMonotone(q + 1, q', n);
    } else if q' < q {
      MulMonotone(q' + 1, q, n);
    }
  }
}
