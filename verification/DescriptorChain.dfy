/**
 The walk over a chain of length-prefixed descriptors, as a tokeniser.

 Both parsers of the library walk such a chain: the configuration parser reads a two-byte record
 header (`m == 2`), the BOS parser a three-byte one (`m == 3`). A walk stops for good at the first
 place where no complete record starts.
 */
module DescriptorChain {
  import opened UsbBase

  /** A complete record: its first byte is its own length, and its header is not cut. */
  ghost predicate IsRecord(r: seq<byte>, m: nat)
    requires 1 <= m
  {
    m <= |r| && r[0] == |r|
  }

  ghost predicate AllRecords(rs: seq<seq<byte>>, m: nat)
    requires 1 <= m
  {
    forall i :: 0 <= i < |rs| ==> IsRecord(rs[i], m)
  }

  /** No complete record starts at the head of `s`: the walk stops here. */
  predicate Blocked(s: seq<byte>, m: nat)
    requires 1 <= m
  {
    |s| < m || s[0] < m || s[0] > |s|
  }

  function Records(s: seq<byte>, m: nat): seq<seq<byte>>
    requires 1 <= m
    decreases |s|
  {
    if Blocked(s, m) then [] else [s[..s[0]]] + Records(s[s[0]..], m)
  }

  function Flatten(rs: seq<seq<byte>>): seq<byte> {
    if rs == [] then [] else rs[0] + Flatten(rs[1..])
  }

  /** `rs` tiles the front of `s` with complete records and cannot be continued. */
  ghost predicate MaximalTiling(s: seq<byte>, m: nat, rs: seq<seq<byte>>)
    requires 1 <= m
  {
    && AllRecords(rs, m)
    && Flatten(rs) <= s
    && Blocked(s[|Flatten(rs)|..], m)
  }

  lemma RecordsOfHead(r: seq<byte>, s: seq<byte>, m: nat)
    requires 1 <= m && IsRecord(r, m)
    ensures Records(r + s, m) == [r] + Records(s, m)
  {
    var t := r + s;
    assert t[..t[0]] == r && t[t[0]..] == s;
  }

  lemma FlattenHead(r: seq<byte>, rs: seq<seq<byte>>)
    ensures Flatten([r] + rs) == r + Flatten(rs)
  {
    assert ([r] + rs)[0] == r && ([r] + rs)[1..] == rs;
  }

  lemma FlattenFront(r: seq<byte>, rs: seq<seq<byte>>, j: nat)
    requires j <= |rs|
    ensures ([r] + rs)[..j + 1] == [r] + rs[..j]
    ensures Flatten(([r] + rs)[..j + 1]) == r + Flatten(rs[..j])
  {
    assert ([r] + rs)[..j + 1] == [r] + rs[..j];
    FlattenHead(r, rs[..j]);
  }

  /** Complete records in front of any bytes are read back one by one. */
  lemma {:induction false} RecordsOfConcat(rs: seq<seq<byte>>, s: seq<byte>, m: nat)
    requires 1 <= m && AllRecords(rs, m)
    ensures Records(Flatten(rs) + s, m) == rs + Records(s, m)
  {
    if rs == [] {
      assert Flatten(rs) + s == s;
      assert rs + Records(s, m) == Records(s, m);
    } else {
      var head, tail := rs[0], rs[1..];
      RecordsOfConcat(tail, s, m);
      RecordsOfHead(head, Flatten(tail) + s, m);
      ConcatAssociative(head, Flatten(tail), s);
      ConcatAssociative([head], tail, Records(s, m));
      assert rs == [head] + tail;
    }
  }

  lemma {:induction false} RecordsTile(s: seq<byte>, m: nat)
    requires 1 <= m
    ensures MaximalTiling(s, m, Records(s, m))
    decreases |s|
  {
    if !Blocked(s, m) {
      var rest := s[s[0]..];
      RecordsTile(rest, m);
      var rs := Records(s, m);
      assert rs[1..] == Records(rest, m);
      var tail := Flatten(rs[1..]);
      assert Flatten(rs) == s[..s[0]] + tail;
      assert s == s[..s[0]] + rest;
      assert s[|Flatten(rs)|..] == rest[|tail|..];
    }
  }

  /** The tokeniser finds the one and only maximal tiling of its input. */
  lemma RecordsAreTheMaximalTiling(s: seq<byte>, m: nat, rs: seq<seq<byte>>)
    requires 1 <= m
    ensures MaximalTiling(s, m, rs) <==> rs == Records(s, m)
  {
    RecordsTile(s, m);
    if MaximalTiling(s, m, rs) {
      var rest := s[|Flatten(rs)|..];
      assert s == Flatten(rs) + rest;
      RecordsOfConcat(rs, rest, m);
      assert Records(rest, m) == [];
      assert rs + [] == rs;
    }
  }

  /** Cutting the input keeps exactly the records that lie completely before the cut. */
  lemma {:induction false} RecordsOfPrefix(s: seq<byte>, k: nat, m: nat)
    requires 1 <= m && k <= |s|
    ensures var all, j := Records(s, m), |Records(s[..k], m)|;
            && j <= |all|
            && Records(s[..k], m) == all[..j]
            && |Flatten(all[..j])| <= k
            && (j < |all| ==> k < |Flatten(all[..j + 1])|)
    decreases |s|
  {
    var all, kept := Records(s, m), Records(s[..k], m);
    if Blocked(s[..k], m) {
      if !Blocked(s, m) {
        assert all[..1] == [s[..s[0]]] + [];
        FlattenHead(s[..s[0]], []);
      }
    } else {
      var n := s[0];
      assert s[..k][n..] == s[n..][..k - n] && s[..k][..n] == s[..n];
      RecordsOfPrefix(s[n..], k - n, m);
      var rest, j := Records(s[n..], m), |kept| - 1;
      assert all == [s[..n]] + rest;
      FlattenFront(s[..n], rest, j);
      if j + 1 < |all| {
        FlattenFront(s[..n], rest, j + 1);
      }
    }
  }

  /**
   The record that appears when a chain cut after `s` is continued by `z` zero bytes: the cut record,
   filled up with zeros, when its announced length ends inside the padding; otherwise none.
   */
  function CutRecord(s: seq<byte>, z: nat, m: nat): (cut: seq<seq<byte>>)
    requires 1 <= m
    ensures |cut| <= 1 && AllRecords(cut, m)
  {
    if 0 < |s| && m <= s[0] && |s| <= s[0] <= |s| + z then [s + Zeros(s[0] - |s|)] else []
  }

  /** Zero padding adds at most the one cut record; the walk then stops on a zero length. */
  lemma RecordsOfPadded(s: seq<byte>, z: nat, m: nat)
    requires 1 <= m
    ensures var rs := Records(s, m);
            && Flatten(rs) <= s
            && Records(s + Zeros(z), m) == rs + CutRecord(s[|Flatten(rs)|..], z, m)
  {
    var rs := Records(s, m);
    RecordsTile(s, m);
    var rest := s[|Flatten(rs)|..];
    assert s + Zeros(z) == Flatten(rs) + (rest + Zeros(z));
    RecordsOfConcat(rs, rest + Zeros(z), m);
    PaddedRemainder(rest, z, m);
  }

  lemma ZerosConcat(a: nat, b: nat)
    ensures Zeros(a) + Zeros(b) == Zeros(a + b)
  {
  }

  lemma CompletedRemainder(rest: seq<byte>, z: nat, m: nat)
    requires 1 <= m && 0 < |rest| && m <= rest[0] && |rest| <= rest[0] <= |rest| + z
    ensures Records(rest + Zeros(z), m) == [rest + Zeros(rest[0] - |rest|)]
  {
    var n := rest[0] - |rest|;
    var r, more := rest + Zeros(n), Zeros(z - n);
    assert rest + Zeros(z) == r + more by {
      ZerosConcat(n, z - n);
      ConcatAssociative(rest, Zeros(n), more);
    }
    assert IsRecord(r, m) && Blocked(more, m);
    RecordsOfHead(r, more, m);
  }

  lemma BlockedRemainder(rest: seq<byte>, z: nat, m: nat)
    requires 1 <= m && Blocked(rest, m)
    requires |rest| == 0 || rest[0] < m || rest[0] < |rest| || |rest| + z < rest[0]
    ensures Blocked(rest + Zeros(z), m)
  {
    var t := rest + Zeros(z);
    if rest == [] {
      assert t == Zeros(z);
    } else {
      assert t[0] == rest[0];
    }
  }

  lemma PaddedRemainder(rest: seq<byte>, z: nat, m: nat)
    requires 1 <= m && Blocked(rest, m)
    ensures Records(rest + Zeros(z), m) == CutRecord(rest, z, m)
  {
    if 0 < |rest| && m <= rest[0] && |rest| <= rest[0] <= |rest| + z {
      CompletedRemainder(rest, z, m);
    } else {
      BlockedRemainder(rest, z, m);
    }
  }

  lemma {:induction false} FlattenConcat(a: seq<seq<byte>>, b: seq<seq<byte>>)
    ensures Flatten(a + b) == Flatten(a) + Flatten(b)
  {
    if a == [] {
      assert a + b == b;
    } else {
      var head, tail := a[0], a[1..];
      FlattenConcat(tail, b);
      FlattenHead(head, tail + b);
      ConcatAssociative([head], tail, b);
      ConcatAssociative(head, Flatten(tail), Flatten(b));
      assert a == [head] + tail;
    }
  }

  /** The walk resumed at a record boundary reads exactly the remaining records. */
  lemma RecordsFromBoundary(s: seq<byte>, i: nat, m: nat)
    requires 1 <= m && i <= |Records(s, m)|
    ensures var front := Flatten(Records(s, m)[..i]);
            front <= s && Records(s[|front|..], m) == Records(s, m)[i..]
  {
    var rs := Records(s, m);
    RecordsTile(s, m);
    var front := rs[..i];
    assert rs == front + rs[i..];
    FlattenConcat(front, rs[i..]);
    assert Flatten(front) <= s;
    var rest := s[|Flatten(front)|..];
    assert s == Flatten(front) + rest;
    RecordsOfConcat(front, rest, m);
    assert rs[i..] == (front + Records(rest, m))[i..] == Records(rest, m);
  }

  lemma RecordsOfSandwich(front: seq<seq<byte>>, u: seq<byte>, rest: seq<byte>, m: nat)
    requires 1 <= m && AllRecords(front, m) && IsRecord(u, m)
    ensures Records(Flatten(front) + u + rest, m) == front + [u] + Records(rest, m)
  {
    RecordsOfConcat(front, u + rest, m);
    assert Flatten(front) + u + rest == Flatten(front) + (u + rest);
    RecordsOfHead(u, rest, m);
    assert front + ([u] + Records(rest, m)) == front + [u] + Records(rest, m);
  }

  /** Writing `u` at the boundary after the first `i` records puts it in the list at index `i`. */
  lemma RecordsOfInsertion(s: seq<byte>, i: nat, u: seq<byte>, m: nat)
    requires 1 <= m && IsRecord(u, m)
    requires i <= |Records(s, m)|
    ensures var rs := Records(s, m);
            var cut := |Flatten(rs[..i])|;
            && cut <= |s|
            && Records(s[..cut] + u + s[cut..], m) == rs[..i] + [u] + rs[i..]
  {
    var rs := Records(s, m);
    assert AllRecords(rs, m) by { RecordsTile(s, m); }
    RecordsFromBoundary(s, i, m);
    var front := Flatten(rs[..i]);
    assert s[..|front|] == front;
    RecordsOfSandwich(rs[..i], u, s[|front|..], m);
  }

  // ---------------------------------------------------------------------------------------------
  // The chain inside a buffer: behind a header whose bytes 2 and 3 announce the total length
  // ---------------------------------------------------------------------------------------------

  /** The bytes a walk may look at: behind the `h` bytes of the header, up to the announced total length or
      to the end of the buffer. */
  function Behind(buf: seq<byte>, h: nat): seq<byte>
    requires 4 <= h <= |buf|
  {
    var end := Min(Le16(buf[2], buf[3]), |buf|);
    if end < h then [] else buf[h..end]
  }

  /** The buffer with the bytes `u` written in at byte `cut`, and the total length raised accordingly. */
  function Inserted(buf: seq<byte>, cut: nat, u: seq<byte>): seq<byte>
    requires 4 <= cut <= |buf| && Le16(buf[2], buf[3]) + |u| <= 0xFFFF
  {
    var total: u16 := Le16(buf[2], buf[3]) + |u|;
    (buf[..cut] + u + buf[cut..])[2 := Lo(total)][3 := Hi(total)]
  }

  lemma HeaderOfInserted(buf: seq<byte>, h: nat, cut: nat, u: seq<byte>)
    requires 4 <= h <= cut <= |buf| && Le16(buf[2], buf[3]) + |u| <= 0xFFFF
    ensures var b := Inserted(buf, cut, u);
            && |b| == |buf| + |u| && b[1] == buf[1]
            && Le16(b[2], b[3]) == Le16(buf[2], buf[3]) + |u|
            && (forall i :: 4 <= i < h ==> b[i] == buf[i])
            && b[h..] == buf[h..cut] + u + buf[cut..]
  {
  }

  lemma TakeAcross<T>(a: seq<T>, u: seq<T>, b: seq<T>, n: nat, k: nat)
    requires |a| == k <= n <= |a| + |b|
    ensures (a + u + b)[..n + |u|] == (a + b)[..n][..k] + u + (a + b)[..n][k..]
  {
    assert (a + b)[..n][..k] == a && (a + b)[..n][k..] == b[..n - k];
  }

  lemma BehindIsTake(buf: seq<byte>, h: nat)
    requires 4 <= h <= |buf| && h <= Le16(buf[2], buf[3])
    ensures var n := Min(Le16(buf[2], buf[3]), |buf|) - h;
            |Behind(buf, h)| == n && Behind(buf, h) == buf[h..][..n]
  {
  }

  lemma BehindInserted(buf: seq<byte>, h: nat, cut: nat, u: seq<byte>)
    requires 4 <= h <= cut <= |buf| && Le16(buf[2], buf[3]) + |u| <= 0xFFFF
    requires h <= Le16(buf[2], buf[3]) && cut <= h + |Behind(buf, h)|
    ensures Behind(Inserted(buf, cut, u), h) == Behind(buf, h)[..cut - h] + u + Behind(buf, h)[cut - h..]
  {
    var b, chain := Inserted(buf, cut, u), Behind(buf, h);
    var a, rest := buf[h..cut], buf[cut..];
    assert chain == (a + rest)[..|chain|] by {
      BehindIsTake(buf, h);
      assert buf[h..] == a + rest;
    }
    assert Behind(b, h) == (a + u + rest)[..|chain| + |u|] by {
      HeaderOfInserted(buf, h, cut, u);
      BehindIsTake(b, h);
    }
    TakeAcross(a, u, rest, |chain|, cut - h);
  }

  /** Where the total length announces less than the header, even the inserted record is out of reach. */
  lemma BehindInsertedEmpty(buf: seq<byte>, h: nat, u: seq<byte>, m: nat)
    requires 4 <= h <= |buf| && 1 <= m && IsRecord(u, m) && Le16(buf[2], buf[3]) + |u| <= 0xFFFF
    requires Le16(buf[2], buf[3]) < h
    ensures Records(Behind(Inserted(buf, h, u), h), m) == []
  {
    HeaderOfInserted(buf, h, h, u);
    var b := Inserted(buf, h, u);
    var chain := Behind(b, h);
    assert b[h] == b[h..][0] == u[0];
    assert |chain| < |u|;
    if chain != [] {
      assert chain[0] == b[h];
    }
    assert Blocked(chain, m);
  }

  /** The byte of the buffer at which the records from index `i` on begin. */
  function Boundary(buf: seq<byte>, h: nat, i: nat, m: nat): (cut: nat)
    requires 4 <= h <= |buf| && 1 <= m && i <= |Records(Behind(buf, h), m)|
    ensures h <= cut <= h + |Behind(buf, h)| <= |buf|
  {
    RecordsFromBoundary(Behind(buf, h), i, m);
    h + |Flatten(Records(Behind(buf, h), m)[..i])|
  }

  lemma RecordsOfCovered(buf: seq<byte>, h: nat, i: nat, u: seq<byte>, m: nat)
    requires 4 <= h <= |buf| && 1 <= m && i <= |Records(Behind(buf, h), m)| && IsRecord(u, m)
    requires h <= Le16(buf[2], buf[3]) <= 0xFFFF - |u|
    ensures var rs := Records(Behind(buf, h), m);
            Records(Behind(Inserted(buf, Boundary(buf, h, i, m), u), h), m) == rs[..i] + [u] + rs[i..]
  {
    var chain, cut := Behind(buf, h), Boundary(buf, h, i, m);
    BehindInserted(buf, h, cut, u);
    RecordsOfInsertion(chain, i, u, m);
  }

  /** A record written into a buffer at a record boundary is walked over at that place, or, where the total
      length does not even cover the header, not at all. */
  lemma RecordsOfInserted(buf: seq<byte>, h: nat, i: nat, u: seq<byte>, m: nat)
    requires 4 <= h <= |buf| && 1 <= m && i <= |Records(Behind(buf, h), m)| && IsRecord(u, m)
    requires Le16(buf[2], buf[3]) + |u| <= 0xFFFF
    ensures var rs := Records(Behind(buf, h), m);
            Records(Behind(Inserted(buf, Boundary(buf, h, i, m), u), h), m) ==
            if h <= Le16(buf[2], buf[3]) then rs[..i] + [u] + rs[i..] else rs
  {
    if h <= Le16(buf[2], buf[3]) {
      RecordsOfCovered(buf, h, i, u, m);
    } else {
      assert Behind(buf, h) == [] && Boundary(buf, h, i, m) == h;
      BehindInsertedEmpty(buf, h, u, m);
    }
  }
}
