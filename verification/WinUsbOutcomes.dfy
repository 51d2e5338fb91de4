/**
 What the calls of a WinUSB device do, told from the answers of the system and the fields of the device alone.
 The specification functions of `WinUsb` follow the code step by step; the laws here do not mention those
 steps, and between them they leave nothing of a result or of a new state open.
 */
module WinUsbOutcomes {
  import opened UsbBase
  import opened WinUsb
  import opened WinUsbLaws

  /** One of the first 32 pipes has address `e`. */
  ghost predicate Lists(ps: seq<Pipe>, e: byte) {
    exists j :: 0 <= j < |ps| && j < 32 && ps[j].id == e
  }

  lemma ListsIsPipeIds(ps: seq<Pipe>, e: byte)
    ensures Lists(ps, e) <==> e in PipeIds(ps)
  {
  }

  /** In the cache `d`, the first 32 pipes of `h` were entered over `c`. */
  ghost predicate Enters(c: map<byte, Handle>, d: map<byte, Handle>, ps: seq<Pipe>, h: Handle) {
    && (forall e: byte :: Lists(ps, e) ==> e in d && d[e] == h)
    && (forall e: byte :: !Lists(ps, e) ==> (e in d <==> e in c))
    && (forall e: byte :: !Lists(ps, e) && e in c && e in d ==> d[e] == c[e])
  }

  lemma CachedEnters(c: map<byte, Handle>, ps: seq<Pipe>, h: Handle)
    ensures Enters(c, Cached(c, ps, Min(32, |ps|), h), ps, h)
  {
    CachedKeys(c, ps, h);
    forall e: byte ensures Lists(ps, e) <==> e in PipeIds(ps) {
      ListsIsPipeIds(ps, e);
    }
  }

  // ---------------------------------------------------------------------------------------------
  // Claims
  // ---------------------------------------------------------------------------------------------

  /** A search for interface `n` gets to candidate `e` and no further: all before it are granted and are other
      interfaces, and `e` is the interface, or refused, or out of reach. */
  ghost predicate EndsAt(n: byte, replies: seq<Reply>, e: nat) {
    && e <= |replies| && e <= 32
    && (forall j :: 0 <= j < e ==> replies[j].Granted? && replies[j].number != Some(n))
    && (e < |replies| && e < 32 ==> replies[e].Refused? || replies[e].number == Some(n))
  }

  /** Candidate `e` is granted, and is interface `n`. */
  ghost predicate IsInterface(n: byte, replies: seq<Reply>, e: nat) {
    e < |replies| && e < 32 && replies[e].Granted? && replies[e].number == Some(n)
  }

  lemma EndExists(n: byte, replies: seq<Reply>) returns (e: nat)
    ensures EndsAt(n, replies, e)
  {
    e := 0;
    while e < |replies| && e < 32 && replies[e].Granted? && replies[e].number != Some(n)
      invariant e <= |replies| && e <= 32
      invariant forall j :: 0 <= j < e ==> replies[j].Granted? && replies[j].number != Some(n)
    {
      e := e + 1;
    }
  }

  function Handles(replies: seq<Reply>): seq<Handle>
    requires forall i :: 0 <= i < |replies| ==> replies[i].Granted?
  {
    seq(|replies|, i requires 0 <= i < |replies| => replies[i].handle)
  }

  lemma {:induction false} RejectedAre(n: byte, asked: seq<Reply>, e: nat)
    requires |asked| <= 32 && EndsAt(n, asked, e)
    ensures Rejected(n, asked) == Handles(asked[..e])
    ensures Settles(n, asked) == if IsInterface(n, asked, e) then e else |asked|
    decreases e
  {
    if 0 < e {
      var rest := asked[1..];
      assert forall j :: 0 <= j < e - 1 ==> rest[j] == asked[j + 1];
      assert e < |asked| ==> rest[e - 1] == asked[e];
      RejectedAre(n, rest, e - 1);
      assert asked[..e] == [asked[0]] + rest[..e - 1];
      assert Handles(asked[..e]) == [asked[0].handle] + Handles(rest[..e - 1]);
    } else {
      assert Handles(asked[..0]) == [];
    }
  }

  /** What a search leaves alone: the primary handle, the file, the pipe lists of handles that were live. */
  lemma {:induction false} SearchLeaves(s: State, n: byte, asked: seq<Reply>)
    requires FreshReplies(s.live, asked)
    ensures var t := Search(s, n, asked).0;
            && t.primary == s.primary && t.fileOpen == s.fileOpen && t.closedAfter == s.closedAfter
            && (forall h :: h in s.live && h in s.pipes ==> h in t.pipes && t.pipes[h] == s.pipes[h])
    decreases |asked|
  {
    if asked != [] && asked[0].Granted? && asked[0].number != Some(n) {
      var u := Free(Grant(s, asked[0].handle, asked[0].pipes), asked[0].handle);
      assert u.live == s.live;
      SearchLeaves(u, n, asked[1..]);
    }
  }

  /** Apart from the logs, a search that settles on candidate `e` only adopts that handle. */
  lemma {:induction false} SearchAdopts(s: State, n: byte, asked: seq<Reply>, e: nat)
    requires |asked| <= 32 && FreshReplies(s.live, asked) && EndsAt(n, asked, e)
    ensures var t := Search(s, n, asked).0;
            if IsInterface(n, asked, e) then
                 var h, ps := asked[e].handle, asked[e].pipes;
                 && t.assoc == s.assoc + [(n, h)] && t.live == s.live + {h}
                 && h in t.pipes && t.pipes[h] == ps
                 && t.cache == Cached(s.cache, ps, Min(32, |ps|), h)
               else t.assoc == s.assoc && t.live == s.live && t.cache == s.cache
    decreases e
  {
    if 0 < e {
      var r, rest := asked[0], asked[1..];
      assert forall j :: 0 <= j < e - 1 ==> rest[j] == asked[j + 1];
      assert e < |asked| ==> rest[e - 1] == asked[e];
      var u := Free(Grant(s, r.handle, r.pipes), r.handle);
      assert u.live == s.live;
      SearchAdopts(u, n, rest, e - 1);
    }
  }

  lemma CutAtLimit(n: byte, replies: seq<Reply>, e: nat)
    requires EndsAt(n, replies, e)
    ensures var asked := replies[..Min(32, |replies|)];
            && |asked| <= 32 && EndsAt(n, asked, e) && asked[..e] == replies[..e]
            && (IsInterface(n, asked, e) <==> IsInterface(n, replies, e))
            && (IsInterface(n, replies, e) ==> asked[e] == replies[e])
  {
  }

  /**
   A claim of an interface that is not held. It succeeds exactly when one of the first 32 candidates is granted
   with that number and all before it are granted; that one is kept, listed last, and its first 32 pipes are
   cached. All candidates granted before the end are freed, in order. Otherwise nothing else changes.
   */
  lemma ClaimOfNew(s: State, n: byte, replies: seq<Reply>, e: nat)
    requires Inv(s) && s.primary in s.pipes && FreshReplies(s.live, replies)
    requires n != 0 && forall i :: 0 <= i < |s.assoc| ==> s.assoc[i].0 != n
    requires EndsAt(n, replies, e)
    ensures var (t, r) := Claim(s, n, replies);
            && (r.Ok? <==> IsInterface(n, replies, e))
            && (r.Err? ==> r.error == Other("interface not found among associated interfaces"))
            && t.freed == s.freed + Handles(replies[..e])
            && t.primary == s.primary && t.fileOpen == s.fileOpen && t.closedAfter == s.closedAfter
            && (forall h :: h in s.live && h in s.pipes ==> h in t.pipes && t.pipes[h] == s.pipes[h])
            && (r.Err? ==> t.assoc == s.assoc && t.live == s.live && t.cache == s.cache)
            && (r.Ok? ==>
                  var h, ps := replies[e].handle, replies[e].pipes;
                  && t.assoc == s.assoc + [(n, h)] && t.live == s.live + {h}
                  && h in t.pipes && t.pipes[h] == ps
                  && Enters(s.cache, t.cache, ps, h))
            && t.granted == s.granted + multiset(Handles(replies[..e])) +
                            (if r.Ok? then multiset{replies[e].handle} else multiset{})
  {
    var asked := replies[..Min(32, |replies|)];
    CutAtLimit(n, replies, e);
    assert Position(s.assoc, n) == |s.assoc|;
    assert Claim(s, n, replies) == Search(s, n, asked);
    RejectedAre(n, asked, e);
    SearchOutcome(s, n, asked);
    SearchAdopts(s, n, asked, e);
    SearchLeaves(s, n, asked);
    SearchError(s, n, asked);
    if IsInterface(n, replies, e) {
      CachedEnters(s.cache, replies[e].pipes, replies[e].handle);
    }
  }

  lemma {:induction false} SearchError(s: State, n: byte, asked: seq<Reply>)
    ensures var r := Search(s, n, asked).1;
            r.Err? ==> r.error == Other("interface not found among associated interfaces")
    decreases |asked|
  {
    if asked != [] && asked[0].Granted? && asked[0].number != Some(n) {
      SearchError(Free(Grant(s, asked[0].handle, asked[0].pipes), asked[0].handle), n, asked[1..]);
    }
  }

  /** The claim of a number that is held changes nothing; that of number 0 enters the primary handle. */
  lemma ClaimOfHeld(s: State, n: byte, replies: seq<Reply>)
    requires s.primary in s.pipes && (n == 0 || exists i :: 0 <= i < |s.assoc| && s.assoc[i].0 == n)
    ensures var (t, r) := Claim(s, n, replies);
            && r == Ok(())
            && (n != 0 ==> t == s)
            && (n == 0 ==> t == s.(cache := t.cache) && Enters(s.cache, t.cache, s.pipes[s.primary], s.primary))
  {
    CachedEnters(s.cache, s.pipes[s.primary], s.primary);
  }

  /** A claim succeeds if and only if the number is 0, or is held, or is that of a granted candidate among the
      first 32 with only granted ones before it. */
  lemma ClaimSucceedsExactly(s: State, n: byte, replies: seq<Reply>)
    requires Inv(s) && s.primary in s.pipes && FreshReplies(s.live, replies)
    ensures Claim(s, n, replies).1.Ok? <==>
            || n == 0
            || (exists i :: 0 <= i < |s.assoc| && s.assoc[i].0 == n)
            || (exists i :: 0 <= i < |replies| && i < 32 && replies[i].Granted? && replies[i].number == Some(n)
                            && forall j :: 0 <= j < i ==> replies[j].Granted?)
  {
    if n == 0 || exists i :: 0 <= i < |s.assoc| && s.assoc[i].0 == n {
      ClaimOfHeld(s, n, replies);
    } else {
      var e := EndExists(n, replies);
      ClaimOfNew(s, n, replies, e);
      if i :| 0 <= i < |replies| && i < 32 && replies[i].Granted? && replies[i].number == Some(n)
              && forall j :: 0 <= j < i ==> replies[j].Granted? {
        assert e <= i;
      }
    }
  }

  // ---------------------------------------------------------------------------------------------
  // Releases
  // ---------------------------------------------------------------------------------------------

  /** The release of an interface that is held, wherever it stands in the list: that entry goes, its handle is
      freed, and exactly the cache entries for that handle go. */
  lemma ReleaseOfHeld(s: State, n: byte, p: nat)
    requires Inv(s) && p < |s.assoc| && s.assoc[p].0 == n
    ensures var t, h := Release(s, n), s.assoc[p].1;
            && t == s.(assoc := s.assoc[..p] + s.assoc[p + 1..], cache := t.cache,
                       live := s.live - {h}, freed := s.freed + [h])
            && (forall e: byte :: e in t.cache <==> e in s.cache && s.cache[e] != h)
            && (forall e: byte :: e in t.cache ==> t.cache[e] == s.cache[e])
  {
    assert Position(s.assoc, n) == p;
  }

  /** The release of number 0, or of a number that is not held, changes nothing. */
  lemma ReleaseOfOther(s: State, n: byte)
    requires n == 0 || forall i :: 0 <= i < |s.assoc| ==> s.assoc[i].0 != n
    ensures Release(s, n) == s
  {
  }

  // ---------------------------------------------------------------------------------------------
  // Lookups
  // ---------------------------------------------------------------------------------------------

  /** The handles in the order in which they are asked: the primary one, then the associated ones. */
  function Asked(s: State, i: nat): Handle
    requires i <= |s.assoc|
  {
    if i == 0 then s.primary else s.assoc[i - 1].1
  }

  /** Handle `i` is the first one that has the endpoint among its first 32 pipes. */
  ghost predicate FirstCarrier(s: State, e: byte, i: nat) {
    && i <= |s.assoc| && Asked(s, i) in s.pipes && Lists(s.pipes[Asked(s, i)], e)
    && forall j :: 0 <= j < i ==> Asked(s, j) in s.pipes && !Lists(s.pipes[Asked(s, j)], e)
  }

  lemma ProbeIsFirst(s: State, e: byte)
    requires Inv(s)
    ensures var i := ProbeIndex(s.pipes, Held(s), e);
            && (i < |Held(s)| ==> FirstCarrier(s, e, i) && Held(s)[i] == Asked(s, i))
            && (i == |Held(s)| ==> forall k :: !FirstCarrier(s, e, k))
    ensures forall i, k :: FirstCarrier(s, e, i) && FirstCarrier(s, e, k) ==> i == k
  {
    HeldDistinct(s);
    assert forall k :: 0 <= k < |Held(s)| ==> Held(s)[k] == Asked(s, k);
    forall k | 0 <= k < |Held(s)|
      ensures Asked(s, k) in s.pipes
      ensures Lists(s.pipes[Asked(s, k)], e) <==> e in PipeIds(s.pipes[Held(s)[k]])
    {
      assert Held(s)[k] in s.live;
      ListsIsPipeIds(s.pipes[Held(s)[k]], e);
    }
  }

  /** The lookup answers from the cache; without an entry, with the first handle that has the endpoint; and if
      none has it, with the primary handle. */
  lemma LookupOrder(s: State, e: byte)
    requires Inv(s)
    ensures e in s.cache ==> HandleFor(s, e) == s.cache[e]
    ensures forall i :: e !in s.cache && FirstCarrier(s, e, i) ==> HandleFor(s, e) == Asked(s, i)
    ensures e !in s.cache && (forall i :: !FirstCarrier(s, e, i)) ==> HandleFor(s, e) == s.primary
  {
    ProbeIsFirst(s, e);
  }

  /** Pipe `k` is the first one with address `e`. */
  ghost predicate FirstOf(ps: seq<Pipe>, e: byte, k: nat) {
    k < |ps| && k < 32 && ps[k].id == e && forall m :: 0 <= m < k ==> ps[m].id != e
  }

  lemma {:induction false} FirstPipeIs(ps: seq<Pipe>, i: nat, e: byte)
    requires forall m :: 0 <= m < i && m < |ps| ==> ps[m].id != e
    ensures var p := FirstPipe(ps, i, e);
            if p.Some? then exists k: nat :: FirstOf(ps, e, k) && p.value == ps[k] else !Lists(ps, e)
    decreases 32 - i
  {
    if i < 32 && i < |ps| {
      if ps[i].id == e {
        assert FirstOf(ps, e, i);
      } else {
        FirstPipeIs(ps, i + 1, e);
      }
    }
  }

  /** The pipe information is all of the first pipe with the address, on the first handle that has one; it fails
      exactly when no handle has one. */
  lemma PipeInfoIs(s: State, e: byte)
    requires Inv(s)
    ensures var r := PipeInfo(s, e);
            && (r.Ok? <==> exists i :: FirstCarrier(s, e, i))
            && (r.Err? ==> r.error == Other("endpoint not found on any claimed interface"))
            && forall i: nat :: FirstCarrier(s, e, i) ==>
                 exists k: nat :: FirstOf(s.pipes[Asked(s, i)], e, k) && r == Ok(s.pipes[Asked(s, i)][k])
  {
    ProbeIsFirst(s, e);
    var i := ProbeIndex(s.pipes, Held(s), e);
    if i < |Held(s)| {
      FirstPipeIs(s.pipes[Asked(s, i)], 0, e);
    }
  }
}
