/** Theorems about every run of claims and releases on a WinUSB device. */
module WinUsbLaws {
  import opened UsbBase
  import opened WinUsb

  datatype Op = ClaimOp(number: byte, replies: seq<Reply>) | ReleaseOp(number: byte)

  /** The system keeps its promise for this call: what it grants is not live. */
  ghost predicate Allowed(s: State, op: Op) {
    op.ClaimOp? ==> FreshReplies(s.live, op.replies)
  }

  function Step(s: State, op: Op): State
    requires s.primary in s.pipes
  {
    match op
    case ClaimOp(n, replies) => Claim(s, n, replies).0
    case ReleaseOp(n) => Release(s, n)
  }

  /** `t` is reached from `s` by the calls `ops`. */
  ghost predicate Reaches(s: State, ops: seq<Op>, t: State)
    decreases |ops|
  {
    if ops == [] then t == s
    else s.primary in s.pipes && Allowed(s, ops[0]) && Reaches(Step(s, ops[0]), ops[1..], t)
  }

  // ---------------------------------------------------------------------------------------------
  // Every call keeps the invariant
  // ---------------------------------------------------------------------------------------------

  // Small steps, one part of the invariant at a time.

  lemma BalancedGrant(granted: multiset<Handle>, freed: seq<Handle>, live: set<Handle>, h: Handle)
    requires Balanced(granted, freed, live) && h !in live
    ensures Balanced(granted + multiset{h}, freed, live + {h})
  {
    assert multiset(live + {h}) == multiset(live) + multiset{h};
  }

  lemma BalancedFree(granted: multiset<Handle>, freed: seq<Handle>, live: set<Handle>, h: Handle)
    requires Balanced(granted, freed, live) && h in live
    ensures Balanced(granted, freed + [h], live - {h})
  {
    assert live == (live - {h}) + {h};
    assert multiset(live) == multiset(live - {h}) + multiset{h};
  }

  lemma CachedKeys(cache: map<byte, Handle>, ps: seq<Pipe>, h: Handle)
    ensures var c := Cached(cache, ps, Min(32, |ps|), h);
            && c.Keys == cache.Keys + PipeIds(ps)
            && (forall e :: e in PipeIds(ps) ==> c[e] == h)
            && (forall e :: e in c && e !in PipeIds(ps) ==> c[e] == cache[e])
  {
    CachedFirst(cache, ps, Min(32, |ps|), h);
  }

  lemma {:induction false} CachedFirst(cache: map<byte, Handle>, ps: seq<Pipe>, n: nat, h: Handle)
    requires n <= |ps|
    ensures var c, ids := Cached(cache, ps, n, h), set i | 0 <= i < n :: ps[i].id;
            && c.Keys == cache.Keys + ids
            && (forall e :: e in ids ==> c[e] == h)
            && (forall e :: e in c && e !in ids ==> c[e] == cache[e])
  {
    if 0 < n {
      CachedFirst(cache, ps, n - 1, h);
      assert (set i | 0 <= i < n :: ps[i].id) == (set i | 0 <= i < n - 1 :: ps[i].id) + {ps[n - 1].id};
    }
  }

  lemma SoundGrant(s: State, h: Handle, ps: seq<Pipe>)
    requires CacheSound(s.cache, s.live, s.pipes) && h !in s.live
    ensures CacheSound(s.cache, s.live + {h}, s.pipes[h := ps])
    ensures CacheSound(s.cache, s.live, s.pipes[h := ps])
  {
  }

  lemma SoundCachePipes(s: State, h: Handle)
    requires CacheSound(s.cache, s.live, s.pipes) && h in s.live
    ensures CacheSound(CachePipes(s, h).cache, s.live, s.pipes)
  {
    CachedKeys(s.cache, s.pipes[h], h);
  }

  lemma SoundEvict(s: State, h: Handle)
    requires CacheSound(s.cache, s.live, s.pipes)
    ensures CacheSound(Evict(s.cache, h), s.live - {h}, s.pipes)
  {
  }

  lemma ListAppend(hs: seq<Handle>, h: Handle)
    requires Distinct(hs) && h !in Elements(hs)
    ensures Distinct(hs + [h]) && Elements(hs + [h]) == Elements(hs) + {h}
  {
  }

  lemma ListRemove(hs: seq<Handle>, p: nat)
    requires Distinct(hs) && p < |hs|
    ensures Distinct(Without(hs, p)) && Elements(Without(hs, p)) == Elements(hs) - {hs[p]}
  {
    var ws := Without(hs, p);
    assert forall i :: 0 <= i < |ws| ==> ws[i] == if i < p then hs[i] else hs[i + 1];
    forall x | x in Elements(hs) - {hs[p]}
      ensures x in Elements(ws)
    {
      var i :| 0 <= i < |hs| && hs[i] == x;
      assert ws[if i < p then i else i - 1] == x;
    }
  }

  lemma NumberedRemove(assoc: seq<(byte, Handle)>, p: nat)
    requires Numbered(assoc) && p < |assoc|
    ensures Numbered(Without(assoc, p))
  {
    var ws := Without(assoc, p);
    assert forall i :: 0 <= i < |ws| ==> ws[i] == if i < p then assoc[i] else assoc[i + 1];
  }

  lemma AssocHandlesRemove(assoc: seq<(byte, Handle)>, p: nat)
    requires p < |assoc|
    ensures AssocHandles(Without(assoc, p)) == Without(AssocHandles(assoc), p)
  {
  }

  lemma HeldAfterRemove(s: State, t: State, p: nat)
    requires p < |s.assoc| && t.assoc == Without(s.assoc, p) && t.primary == s.primary
    ensures Held(t) == Without(Held(s), p + 1)
  {
    AssocHandlesRemove(s.assoc, p);
    var hs := AssocHandles(s.assoc);
    assert ([s.primary] + hs)[..p + 1] == [s.primary] + hs[..p];
    assert ([s.primary] + hs)[p + 2..] == hs[p + 1..];
  }

  // The calls.

  /** Granting a handle and freeing it again leaves only a trace in the two logs. */
  lemma RejectKeepsInv(s: State, h: Handle, ps: seq<Pipe>)
    requires Inv(s) && h !in s.live
    ensures Inv(Free(Grant(s, h, ps), h))
    ensures Free(Grant(s, h, ps), h).live == s.live
  {
    BalancedGrant(s.granted, s.freed, s.live, h);
    BalancedFree(s.granted + multiset{h}, s.freed, s.live + {h}, h);
    SoundGrant(s, h, ps);
    assert s.live + {h} - {h} == s.live;
    assert Held(Free(Grant(s, h, ps), h)) == Held(s);
  }

  function Adopted(s: State, n: byte, h: Handle, ps: seq<Pipe>): State {
    var c := CachePipes(Grant(s, h, ps), h);
    c.(assoc := c.assoc + [(n, h)])
  }

  lemma AdoptKeepsInv(s: State, n: byte, h: Handle, ps: seq<Pipe>)
    requires Inv(s) && h !in s.live && n != 0 && Position(s.assoc, n) == |s.assoc|
    ensures Inv(Adopted(s, n, h, ps))
  {
    BalancedGrant(s.granted, s.freed, s.live, h);
    SoundGrant(s, h, ps);
    SoundCachePipes(Grant(s, h, ps), h);
    ListAppend(Held(s), h);
    assert Held(Adopted(s, n, h, ps)) == Held(s) + [h];
  }

  /** A claim whose first candidate is the right one. */
  lemma ClaimAdopts(s: State, n: byte, x: Handle, ps: seq<Pipe>)
    requires s.primary in s.pipes && n != 0 && Position(s.assoc, n) == |s.assoc|
    ensures Claim(s, n, [Granted(x, Some(n), ps)]) == (Adopted(s, n, x, ps), Ok(()))
  {
    var replies := [Granted(x, Some(n), ps)];
    assert replies[..Min(32, |replies|)] == replies;
  }

  lemma {:induction false} SearchKeepsInv(s: State, n: byte, replies: seq<Reply>)
    requires Inv(s) && FreshReplies(s.live, replies)
    requires n != 0 && Position(s.assoc, n) == |s.assoc|
    ensures Inv(Search(s, n, replies).0)
    decreases |replies|
  {
    if replies != [] && replies[0].Granted? {
      var h := replies[0].handle;
      if replies[0].number == Some(n) {
        AdoptKeepsInv(s, n, h, replies[0].pipes);
      } else {
        RejectKeepsInv(s, h, replies[0].pipes);
        SearchKeepsInv(Free(Grant(s, h, replies[0].pipes), h), n, replies[1..]);
      }
    }
  }

  lemma CachePrimaryKeepsInv(s: State)
    requires Inv(s) && s.primary in s.live
    ensures Inv(CachePipes(s, s.primary))
  {
    SoundCachePipes(s, s.primary);
    assert Held(CachePipes(s, s.primary)) == Held(s);
  }

  lemma ReleaseKeepsInv(s: State, n: byte)
    requires Inv(s)
    ensures Inv(Release(s, n))
  {
    var p := Position(s.assoc, n);
    if n != 0 && p < |s.assoc| {
      HeldDistinct(s);
      var h := s.assoc[p].1;
      assert h == Held(s)[p + 1];
      ListRemove(Held(s), p + 1);
      NumberedRemove(s.assoc, p);
      HeldAfterRemove(s, Release(s, n), p);
      SoundEvict(s, h);
      BalancedFree(s.granted, s.freed, s.live, h);
    }
  }

  lemma StepKeepsInv(s: State, op: Op)
    requires Inv(s) && Allowed(s, op)
    ensures s.primary in s.pipes && Inv(Step(s, op))
  {
    HeldDistinct(s);
    match op
    case ReleaseOp(n) => ReleaseKeepsInv(s, n);
    case ClaimOp(n, replies) =>
      if n == 0 {
        CachePrimaryKeepsInv(s);
      } else if Position(s.assoc, n) == |s.assoc| {
        SearchKeepsInv(s, n, replies[..Min(32, |replies|)]);
      }
  }

  lemma OpenedHasInv(h: Handle, ps: seq<Pipe>)
    ensures Inv(Opened(h, ps)) && Held(Opened(h, ps)) == [h]
  {
    var s := Opened(h, ps);
    assert Held(s) == [h];
  }

  lemma {:induction false} RunKeepsInv(s: State, ops: seq<Op>, t: State)
    requires Inv(s) && Reaches(s, ops, t)
    ensures Inv(t)
    decreases |ops|
  {
    if ops != [] {
      StepKeepsInv(s, ops[0]);
      RunKeepsInv(Step(s, ops[0]), ops[1..], t);
    }
  }

  // ---------------------------------------------------------------------------------------------
  // Conservation of handles
  // ---------------------------------------------------------------------------------------------

  /**
   Handle conservation. After any run the live handles are the primary one and the associated ones,
   all different, under different non-zero interface numbers; handles granted are exactly the
   handles freed so far plus the live ones, each counted as often as it was granted.
   */
  lemma HandleConservation(h: Handle, ps: seq<Pipe>, ops: seq<Op>, t: State)
    requires Reaches(Opened(h, ps), ops, t)
    ensures t.live == {t.primary} + (set x | x in AssocHandles(t.assoc))
    ensures |t.live| == 1 + |t.assoc|
    ensures forall i, j :: 0 <= i < j < |t.assoc| ==> t.assoc[i].0 != t.assoc[j].0
    ensures forall i :: 0 <= i < |t.assoc| ==> t.assoc[i].0 != 0
    ensures forall e :: e in t.cache ==> t.cache[e] in t.live
    ensures t.granted == multiset(t.freed) + multiset(t.live)
  {
    OpenedHasInv(h, ps);
    RunKeepsInv(Opened(h, ps), ops, t);
    assert forall x :: x in Held(t) <==> x == t.primary || x in AssocHandles(t.assoc);
    DistinctCount(Held(t), t.live);
  }

  lemma {:induction false} DistinctCount(hs: seq<Handle>, all: set<Handle>)
    requires forall i, j :: 0 <= i < j < |hs| ==> hs[i] != hs[j]
    requires forall h :: h in all <==> h in hs
    ensures |all| == |hs|
  {
    if hs != [] {
      DistinctCount(hs[1..], all - {hs[0]});
    }
  }

  lemma {:induction false} ReversedMultiset<T>(xs: seq<T>)
    ensures multiset(Reverse(xs)) == multiset(xs)
  {
    if xs != [] {
      ReversedMultiset(xs[1..]);
      assert xs == [xs[0]] + xs[1..];
    }
  }

  lemma {:induction false} DistinctMultiset(hs: seq<Handle>)
    requires forall i, j :: 0 <= i < j < |hs| ==> hs[i] != hs[j]
    ensures multiset(hs) == multiset(Elements(hs))
  {
    if hs != [] {
      DistinctMultiset(hs[1..]);
      assert hs == [hs[0]] + hs[1..];
      assert Elements(hs) == {hs[0]} + Elements(hs[1..]);
    }
  }

  lemma {:induction false} SearchKeepsFile(s: State, n: byte, replies: seq<Reply>)
    ensures var t := Search(s, n, replies).0;
            t.fileOpen == s.fileOpen && t.closedAfter == s.closedAfter
    decreases |replies|
  {
    if replies != [] && replies[0].Granted? {
      var h := replies[0].handle;
      SearchKeepsFile(Free(Grant(s, h, replies[0].pipes), h), n, replies[1..]);
    }
  }

  /** No claim and no release touches the file. */
  lemma {:induction false} RunKeepsFile(s: State, ops: seq<Op>, t: State)
    requires Reaches(s, ops, t)
    ensures t.fileOpen == s.fileOpen && t.closedAfter == s.closedAfter
    decreases |ops|
  {
    if ops != [] {
      var op := ops[0];
      if op.ClaimOp? {
        SearchKeepsFile(s, op.number, op.replies[..Min(32, |op.replies|)]);
      }
      RunKeepsFile(Step(s, op), ops[1..], t);
    }
  }

  /**
   Open, any claims and releases, drop: nothing stays live, and every handle the system ever granted
   has been freed exactly once per grant, the associated ones newest first, then the primary one. The
   file is open up to the drop, which closes it after the last handle was freed.
   */
  lemma DropFreesEverythingOnce(h: Handle, ps: seq<Pipe>, ops: seq<Op>, t: State)
    requires Reaches(Opened(h, ps), ops, t)
    ensures var d := Dropped(t);
            && d.live == {}
            && t.fileOpen && t.closedAfter == None
            && !d.fileOpen && d.closedAfter == Some(|d.freed|)
            && multiset(d.freed) == d.granted == t.granted
            && d.freed == t.freed + Reverse(AssocHandles(t.assoc)) + [t.primary]
  {
    OpenedHasInv(h, ps);
    RunKeepsInv(Opened(h, ps), ops, t);
    RunKeepsFile(Opened(h, ps), ops, t);
    var hs := AssocHandles(t.assoc);
    ReversedMultiset(hs);
    DistinctMultiset(Held(t));
    assert Elements(Held(t)) == t.live;
    assert multiset(Held(t)) == multiset{t.primary} + multiset(hs);
  }

  /** The order, by position: what the drop frees are the associated handles from the last to the first, and
      then the handle the device was opened with. */
  lemma DropOrder(h: Handle, ps: seq<Pipe>, ops: seq<Op>, t: State)
    requires Reaches(Opened(h, ps), ops, t)
    ensures exists last :: Dropped(t).freed == t.freed + last + [h] && NewestFirst(last, t.assoc)
  {
    RunKeepsPrimary(Opened(h, ps), ops, t);
    var hs := AssocHandles(t.assoc);
    ReverseIsNewestFirst(t.assoc);
    assert NewestFirst(Reverse(hs), t.assoc);
  }

  ghost predicate NewestFirst(last: seq<Handle>, assoc: seq<(byte, Handle)>) {
    |last| == |assoc| && forall k :: 0 <= k < |last| ==> last[k] == assoc[|assoc| - 1 - k].1
  }

  lemma ReverseIsNewestFirst(assoc: seq<(byte, Handle)>)
    ensures NewestFirst(Reverse(AssocHandles(assoc)), assoc)
  {
    var hs := AssocHandles(assoc);
    forall k | 0 <= k < |hs|
      ensures |Reverse(hs)| == |hs| && Reverse(hs)[k] == hs[|hs| - 1 - k]
    {
      ReverseAt(hs, k);
    }
    if hs != [] {
      ReverseAt(hs, 0);
    }
  }

  lemma {:induction false} ReverseAt<T>(xs: seq<T>, k: nat)
    requires k < |xs|
    ensures |Reverse(xs)| == |xs| && Reverse(xs)[k] == xs[|xs| - 1 - k]
  {
    if |xs| > 1 {
      ReverseAt(xs[1..], if k < |xs| - 1 then k else 0);
    }
  }

  lemma {:induction false} SearchKeepsPrimary(s: State, n: byte, replies: seq<Reply>)
    ensures Search(s, n, replies).0.primary == s.primary
    decreases |replies|
  {
    if replies != [] && replies[0].Granted? {
      var h := replies[0].handle;
      SearchKeepsPrimary(Free(Grant(s, h, replies[0].pipes), h), n, replies[1..]);
    }
  }

  lemma {:induction false} RunKeepsPrimary(s: State, ops: seq<Op>, t: State)
    requires Reaches(s, ops, t)
    ensures t.primary == s.primary
    decreases |ops|
  {
    if ops != [] {
      var op := ops[0];
      if op.ClaimOp? {
        SearchKeepsPrimary(s, op.number, op.replies[..Min(32, |op.replies|)]);
      }
      RunKeepsPrimary(Step(s, op), ops[1..], t);
    }
  }

  // ---------------------------------------------------------------------------------------------
  // The endpoint cache against the plain scan
  // ---------------------------------------------------------------------------------------------

  lemma ProbeFinds(s: State, e: byte)
    requires Inv(s)
    ensures Probe(s, e) in s.live
    ensures (exists h :: h in s.live && Carries(s, h, e)) <==> Carries(s, Probe(s, e), e)
  {
    HeldDistinct(s);
    var i := ProbeIndex(s.pipes, Held(s), e);
    if h :| h in s.live && Carries(s, h, e) {
      var j :| 0 <= j < |Held(s)| && Held(s)[j] == h;
      assert i <= j;
    }
  }

  /**
   The lookup is sound and complete on every run, even when interfaces share addresses: it names a
   live handle, one that carries the endpoint whenever some held handle does, else the primary one.
   */
  lemma LookupIsSound(h: Handle, ps: seq<Pipe>, ops: seq<Op>, t: State, e: byte)
    requires Reaches(Opened(h, ps), ops, t)
    ensures HandleFor(t, e) in t.live
    ensures (exists x :: x in t.live && Carries(t, x, e)) <==> Carries(t, HandleFor(t, e), e)
    ensures !Carries(t, HandleFor(t, e), e) ==> HandleFor(t, e) == t.primary
    ensures PipeInfo(t, e).Ok? <==> Carries(t, HandleFor(t, e), e)
    ensures PipeInfo(t, e).Ok? ==> PipeInfo(t, e).value.id == e
  {
    OpenedHasInv(h, ps);
    RunKeepsInv(Opened(h, ps), ops, t);
    LookupOfInv(t, e);
  }

  lemma LookupOfInv(t: State, e: byte)
    requires Inv(t)
    ensures HandleFor(t, e) in t.live
    ensures (exists x :: x in t.live && Carries(t, x, e)) <==> Carries(t, HandleFor(t, e), e)
    ensures !Carries(t, HandleFor(t, e), e) ==> HandleFor(t, e) == t.primary
    ensures PipeInfo(t, e).Ok? <==> Carries(t, HandleFor(t, e), e)
    ensures PipeInfo(t, e).Ok? ==> PipeInfo(t, e).value.id == e
  {
    HeldDistinct(t);
    ProbeFinds(t, e);
    var i := ProbeIndex(t.pipes, Held(t), e);
    assert PipeInfo(t, e).Ok? <==> i < |Held(t)|;
    if e in t.cache {
      assert Carries(t, t.cache[e], e);
    } else if t.assoc == [] {
      assert Held(t) == [t.primary];
    }
  }

  /** Pipe lists by interface number; number 0 is the interface of the primary handle. */
  type Layout = map<byte, seq<Pipe>>

  ghost predicate Disjoint(layout: Layout) {
    forall m, n, e :: m in layout && n in layout && e in PipeIds(layout[m]) && e in PipeIds(layout[n]) ==> m == n
  }

  /** The answers of the system describe the interfaces of this device. */
  ghost predicate Describes(layout: Layout, op: Op) {
    op.ClaimOp? ==> forall i :: 0 <= i < |op.replies| && op.replies[i].Granted? && op.replies[i].number.Some? ==>
      var n := op.replies[i].number.value;
      n in layout && op.replies[i].pipes == layout[n]
  }

  ghost predicate AllDescribe(layout: Layout, ops: seq<Op>) {
    forall i :: 0 <= i < |ops| ==> Describes(layout, ops[i])
  }

  /** Each held handle has the pipes of the interface it was claimed for. */
  ghost predicate Fits(s: State, layout: Layout) {
    && 0 in layout && s.primary in s.pipes && s.pipes[s.primary] == layout[0]
    && forall i :: 0 <= i < |s.assoc| ==>
         && s.assoc[i].0 in layout && s.assoc[i].1 in s.pipes
         && s.pipes[s.assoc[i].1] == layout[s.assoc[i].0]
  }

  /** The handles whose pipes the cache should hold (`c0`: number 0 was claimed). */
  ghost function Claimed(s: State, c0: bool): set<Handle> {
    Elements(AssocHandles(s.assoc)) + if c0 then {s.primary} else {}
  }

  /** The cache maps exactly the addresses of the handles in `hs`. */
  ghost predicate Exact(cache: map<byte, Handle>, pipes: map<Handle, seq<Pipe>>, hs: set<Handle>) {
    && hs <= pipes.Keys
    && (forall e :: e in cache ==> cache[e] in hs && e in PipeIds(pipes[cache[e]]))
    && (forall h, e :: h in hs && e in PipeIds(pipes[h]) ==> e in cache)
  }

  ghost predicate ExactCache(s: State, c0: bool) {
    Exact(s.cache, s.pipes, Claimed(s, c0))
  }

  /** No address occurs on two handles of `hs`. */
  ghost predicate DisjointOn(pipes: map<Handle, seq<Pipe>>, hs: set<Handle>)
    requires hs <= pipes.Keys
  {
    forall g, h, e :: g in hs && h in hs && e in PipeIds(pipes[g]) && e in PipeIds(pipes[h]) ==> g == h
  }

  lemma ExactGrant(cache: map<byte, Handle>, pipes: map<Handle, seq<Pipe>>, hs: set<Handle>, h: Handle, ps: seq<Pipe>)
    requires Exact(cache, pipes, hs) && h !in hs
    ensures Exact(cache, pipes[h := ps], hs)
  {
  }

  lemma ExactCached(cache: map<byte, Handle>, pipes: map<Handle, seq<Pipe>>, hs: set<Handle>, h: Handle)
    requires Exact(cache, pipes, hs) && h in pipes
    ensures Exact(Cached(cache, pipes[h], Min(32, |pipes[h]|), h), pipes, hs + {h})
  {
    CachedKeys(cache, pipes[h], h);
  }

  lemma ExactEvict(cache: map<byte, Handle>, pipes: map<Handle, seq<Pipe>>, hs: set<Handle>, h: Handle)
    requires Exact(cache, pipes, hs) && DisjointOn(pipes, hs)
    ensures Exact(Evict(cache, h), pipes, hs - {h})
  {
    forall x, e | x in hs - {h} && e in PipeIds(pipes[x])
      ensures e in Evict(cache, h)
    {
      assert cache[e] == x;
    }
  }

  /** The interface number of the `i`-th held handle. */
  function NumberAt(s: State, i: nat): byte
    requires i < |Held(s)|
  {
    if i == 0 then 0 else s.assoc[i - 1].0
  }

  lemma HeldFits(s: State, layout: Layout, i: nat)
    requires Fits(s, layout) && i < |Held(s)|
    ensures NumberAt(s, i) in layout && Held(s)[i] in s.pipes
    ensures s.pipes[Held(s)[i]] == layout[NumberAt(s, i)]
  {
    if 0 < i {
      assert Held(s)[i] == s.assoc[i - 1].1;
    }
  }

  lemma FitsAreDisjoint(s: State, layout: Layout)
    requires Inv(s) && Fits(s, layout) && Disjoint(layout)
    ensures DisjointOn(s.pipes, s.live)
  {
    forall g, h, e | g in s.live && h in s.live && e in PipeIds(s.pipes[g]) && e in PipeIds(s.pipes[h])
      ensures g == h
    {
      var i :| 0 <= i < |Held(s)| && Held(s)[i] == g;
      var j :| 0 <= j < |Held(s)| && Held(s)[j] == h;
      HeldFits(s, layout, i);
      HeldFits(s, layout, j);
      assert NumberAt(s, i) == NumberAt(s, j);
      SameNumberSameIndex(s, i, j);
    }
  }

  lemma SameNumberSameIndex(s: State, i: nat, j: nat)
    requires Inv(s) && i < |Held(s)| && j < |Held(s)| && NumberAt(s, i) == NumberAt(s, j)
    ensures i == j
  {
  }

  lemma ClaimedAreLive(s: State, c0: bool)
    requires Inv(s)
    ensures Claimed(s, c0) <= s.live
  {
    HeldDistinct(s);
  }

  lemma RejectKeepsExact(s: State, layout: Layout, c0: bool, h: Handle, ps: seq<Pipe>)
    requires Inv(s) && Fits(s, layout) && ExactCache(s, c0) && h !in s.live
    ensures var t := Free(Grant(s, h, ps), h);
            Fits(t, layout) && ExactCache(t, c0)
  {
    HeldDistinct(s);
    ClaimedAreLive(s, c0);
    ExactGrant(s.cache, s.pipes, Claimed(s, c0), h, ps);
  }

  lemma AdoptKeepsExact(s: State, layout: Layout, c0: bool, n: byte, h: Handle)
    requires Inv(s) && Fits(s, layout) && ExactCache(s, c0) && h !in s.live && n in layout
    ensures var t := Adopted(s, n, h, layout[n]);
            Fits(t, layout) && ExactCache(t, c0)
  {
    HeldDistinct(s);
    ClaimedAreLive(s, c0);
    var ps, t := layout[n], Adopted(s, n, h, layout[n]);
    ExactGrant(s.cache, s.pipes, Claimed(s, c0), h, ps);
    ExactCached(s.cache, s.pipes[h := ps], Claimed(s, c0), h);
    assert Claimed(t, c0) == Claimed(s, c0) + {h} by {
      assert AssocHandles(t.assoc) == AssocHandles(s.assoc) + [h];
    }
  }

  lemma {:induction false} SearchKeepsExact(s: State, layout: Layout, c0: bool, n: byte, replies: seq<Reply>)
    requires Inv(s) && Fits(s, layout) && ExactCache(s, c0)
    requires FreshReplies(s.live, replies) && Describes(layout, ClaimOp(n, replies))
    ensures var t := Search(s, n, replies).0;
            Fits(t, layout) && ExactCache(t, c0)
    decreases |replies|
  {
    if replies != [] && replies[0].Granted? {
      var r := replies[0];
      if r.number == Some(n) {
        AdoptKeepsExact(s, layout, c0, n, r.handle);
      } else {
        RejectKeepsInv(s, r.handle, r.pipes);
        RejectKeepsExact(s, layout, c0, r.handle, r.pipes);
        SearchKeepsExact(Free(Grant(s, r.handle, r.pipes), r.handle), layout, c0, n, replies[1..]);
      }
    }
  }

  lemma CachePrimaryKeepsExact(s: State, c0: bool)
    requires s.primary in s.pipes && ExactCache(s, c0)
    ensures ExactCache(CachePipes(s, s.primary), true)
  {
    ExactCached(s.cache, s.pipes, Claimed(s, c0), s.primary);
    assert Claimed(CachePipes(s, s.primary), true) == Claimed(s, c0) + {s.primary};
  }

  lemma ReleaseKeepsFits(s: State, layout: Layout, n: byte)
    requires Fits(s, layout)
    ensures Fits(Release(s, n), layout)
  {
    var p, t := Position(s.assoc, n), Release(s, n);
    if n != 0 && p < |s.assoc| {
      assert forall i :: 0 <= i < |t.assoc| ==> t.assoc[i] == s.assoc[if i < p then i else i + 1];
    }
  }

  lemma ReleaseKeepsExact(s: State, c0: bool, n: byte)
    requires Inv(s) && ExactCache(s, c0) && DisjointOn(s.pipes, s.live)
    ensures ExactCache(Release(s, n), c0)
  {
    var p, t := Position(s.assoc, n), Release(s, n);
    if n != 0 && p < |s.assoc| {
      HeldDistinct(s);
      ClaimedAreLive(s, c0);
      var h := s.assoc[p].1;
      ExactEvict(s.cache, s.pipes, Claimed(s, c0), h);
      assert Claimed(t, c0) == Claimed(s, c0) - {h} by {
        AssocHandlesRemove(s.assoc, p);
        ListRemove(AssocHandles(s.assoc), p);
      }
    }
  }

  predicate ClaimsZero(op: Op) {
    op.ClaimOp? && op.number == 0
  }

  /** Some call of the run claimed interface number 0. */
  predicate ZeroClaimed(ops: seq<Op>) {
    ops != [] && (ClaimsZero(ops[0]) || ZeroClaimed(ops[1..]))
  }

  lemma StepKeepsExact(s: State, layout: Layout, c0: bool, op: Op)
    requires Inv(s) && Fits(s, layout) && ExactCache(s, c0) && Disjoint(layout)
    requires Allowed(s, op) && Describes(layout, op)
    ensures Fits(Step(s, op), layout) && ExactCache(Step(s, op), c0 || ClaimsZero(op))
  {
    FitsAreDisjoint(s, layout);
    if op.ReleaseOp? {
      ReleaseKeepsExact(s, c0, op.number);
      ReleaseKeepsFits(s, layout, op.number);
    } else if op.number == 0 {
      CachePrimaryKeepsExact(s, c0);
    } else if Position(s.assoc, op.number) == |s.assoc| {
      SearchKeepsExact(s, layout, c0, op.number, op.replies[..Min(32, |op.replies|)]);
    }
  }

  lemma {:induction false} RunKeepsExact(s: State, layout: Layout, c0: bool, ops: seq<Op>, t: State)
    requires Inv(s) && Fits(s, layout) && ExactCache(s, c0) && Disjoint(layout)
    requires Reaches(s, ops, t) && AllDescribe(layout, ops)
    ensures Inv(t) && Fits(t, layout) && ExactCache(t, c0 || ZeroClaimed(ops))
    decreases |ops|
  {
    if ops != [] {
      assert Describes(layout, ops[0]);
      StepKeepsInv(s, ops[0]);
      StepKeepsExact(s, layout, c0, ops[0]);
      RunKeepsExact(Step(s, ops[0]), layout, c0 || ClaimsZero(ops[0]), ops[1..], t);
    }
  }

  /**
   Exact cache. When no address occurs on two interfaces, after any run the cache holds exactly the
   first 32 pipes of every claimed handle, the primary one included once number 0 was claimed.
   */
  lemma CacheIsExact(layout: Layout, h: Handle, ops: seq<Op>, t: State)
    requires 0 in layout && Disjoint(layout) && AllDescribe(layout, ops)
    requires Reaches(Opened(h, layout[0]), ops, t)
    ensures forall e, x :: e in t.cache && t.cache[e] == x <==>
              x in Claimed(t, ZeroClaimed(ops)) && Carries(t, x, e)
  {
    OpenedHasInv(h, layout[0]);
    RunKeepsExact(Opened(h, layout[0]), layout, false, ops, t);
    FitsAreDisjoint(t, layout);
    ClaimedAreLive(t, ZeroClaimed(ops));
  }

  lemma DisjointLookupIsProbe(t: State, e: byte)
    requires Inv(t) && DisjointOn(t.pipes, t.live)
    ensures HandleFor(t, e) == Probe(t, e)
  {
    HeldDistinct(t);
    ProbeFinds(t, e);
    if e !in t.cache && t.assoc == [] {
      assert Held(t) == [t.primary];
    }
  }

  /** Where no address occurs on two interfaces, the lookup names the very handle on which `get_pipe_info`
      finds the endpoint. */
  lemma LookupNamesTheFinder(layout: Layout, h: Handle, ops: seq<Op>, t: State, e: byte)
    requires 0 in layout && Disjoint(layout) && AllDescribe(layout, ops)
    requires Reaches(Opened(h, layout[0]), ops, t)
    ensures HandleFor(t, e) in t.pipes
    ensures PipeInfo(t, e).Ok? ==> FirstPipe(t.pipes[HandleFor(t, e)], 0, e) == Some(PipeInfo(t, e).value)
    ensures PipeInfo(t, e).Err? ==> FirstPipe(t.pipes[HandleFor(t, e)], 0, e) == None
  {
    OpenedHasInv(h, layout[0]);
    RunKeepsExact(Opened(h, layout[0]), layout, false, ops, t);
    FitsAreDisjoint(t, layout);
    FinderOfInv(t, e);
  }

  lemma FinderOfInv(t: State, e: byte)
    requires Inv(t) && DisjointOn(t.pipes, t.live)
    ensures HandleFor(t, e) in t.pipes
    ensures PipeInfo(t, e).Ok? ==> FirstPipe(t.pipes[HandleFor(t, e)], 0, e) == Some(PipeInfo(t, e).value)
    ensures PipeInfo(t, e).Err? ==> FirstPipe(t.pipes[HandleFor(t, e)], 0, e) == None
  {
    DisjointLookupIsProbe(t, e);
    ProbeFinds(t, e);
    LookupOfInv(t, e);
  }

  /** The lookup answers what the plain scan answers, on every run over this device. */
  ghost predicate LookupAlwaysAgrees(layout: Layout, h: Handle)
    requires 0 in layout
  {
    forall ops, t, e :: Reaches(Opened(h, layout[0]), ops, t) && AllDescribe(layout, ops) ==>
      HandleFor(t, e) == Probe(t, e)
  }

  /** The run that claims interface `n` alone, on handle `x`. */
  function OneClaim(layout: Layout, n: byte, x: Handle): seq<Op>
    requires n in layout
  {
    [ClaimOp(n, [Granted(x, Some(n), layout[n])])]
  }

  lemma ClaimOne(s: State, layout: Layout, n: byte, x: Handle) returns (t: State)
    requires Inv(s) && x !in s.live && n in layout && n != 0 && Position(s.assoc, n) == |s.assoc|
    ensures Reaches(s, OneClaim(layout, n, x), t) && Inv(t)
    ensures t.assoc == s.assoc + [(n, x)] && Held(t) == Held(s) + [x] && t.live == s.live + {x}
    ensures t.pipes == s.pipes[x := layout[n]]
    ensures HoldsCached(t, layout[n], x)
  {
    var ops := OneClaim(layout, n, x);
    HeldDistinct(s);
    ClaimAdopts(s, n, x, layout[n]);
    t := Adopted(s, n, x, layout[n]);
    assert t == Step(s, ops[0]) && ops[1..] == [];
    AdoptKeepsInv(s, n, x, layout[n]);
    assert AssocHandles(t.assoc) == AssocHandles(s.assoc) + [x];
    CachedKeys(s.cache, layout[n], x);
  }

  /** The enumerated addresses of `ps` are cached for `x`. */
  ghost predicate HoldsCached(t: State, ps: seq<Pipe>, x: Handle) {
    forall e :: e in PipeIds(ps) ==> e in t.cache && t.cache[e] == x
  }

  lemma OneClaimDescribes(layout: Layout, n: byte, x: Handle)
    requires n in layout
    ensures AllDescribe(layout, OneClaim(layout, n, x))
  {
  }

  lemma DescribeConcat(layout: Layout, a: seq<Op>, b: seq<Op>)
    requires AllDescribe(layout, a) && AllDescribe(layout, b)
    ensures AllDescribe(layout, a + b)
  {
  }

  lemma {:induction false} ReachesConcat(s: State, a: seq<Op>, t: State, b: seq<Op>, u: State)
    requires Reaches(s, a, t) && Reaches(t, b, u)
    ensures Reaches(s, a + b, u)
    decreases |a|
  {
    if a == [] {
      assert a + b == b;
    } else {
      ReachesConcat(Step(s, a[0]), a[1..], t, b, u);
      assert (a + b)[1..] == a[1..] + b;
    }
  }

  /** An interface that shares an address with the primary one hides it. */
  lemma OverlapWithPrimary(layout: Layout, h: Handle, n: byte, e: byte) returns (ops: seq<Op>, t: State)
    requires 0 in layout && n in layout && n != 0
    requires e in PipeIds(layout[0]) && e in PipeIds(layout[n])
    ensures Reaches(Opened(h, layout[0]), ops, t) && AllDescribe(layout, ops)
    ensures HandleFor(t, e) != Probe(t, e)
  {
    OpenedHasInv(h, layout[0]);
    var s, y := Opened(h, layout[0]), h + 1;
    t := ClaimOne(s, layout, n, y);
    ops := OneClaim(layout, n, y);
    OneClaimDescribes(layout, n, y);
    assert Held(t)[0] == h;
    CarrierInFront(t, 0, e);
  }

  lemma TwoClaims(layout: Layout, h: Handle, m: byte, n: byte) returns (t: State)
    requires 0 in layout && m in layout && n in layout && m != n && m != 0 && n != 0
    ensures Reaches(Opened(h, layout[0]), OneClaim(layout, m, h + 1) + OneClaim(layout, n, h + 2), t) && Inv(t)
    ensures Held(t) == [h, h + 1, h + 2] && HoldsCached(t, layout[n], h + 2)
    ensures h + 1 in t.pipes && t.pipes[h + 1] == layout[m]
  {
    OpenedHasInv(h, layout[0]);
    t := ClaimTwo(Opened(h, layout[0]), layout, m, h + 1, n, h + 2);
    assert [h] + [h + 1] + [h + 2] == [h, h + 1, h + 2];
  }

  /** Of two associated interfaces that share an address, the one claimed later hides the other. */
  lemma OverlapBetweenClaimed(layout: Layout, h: Handle, m: byte, n: byte, e: byte)
    returns (ops: seq<Op>, t: State)
    requires 0 in layout && m in layout && n in layout && m != n && m != 0 && n != 0
    requires e in PipeIds(layout[m]) && e in PipeIds(layout[n])
    ensures Reaches(Opened(h, layout[0]), ops, t) && AllDescribe(layout, ops)
    ensures HandleFor(t, e) != Probe(t, e)
  {
    t := TwoClaims(layout, h, m, n);
    ops := OneClaim(layout, m, h + 1) + OneClaim(layout, n, h + 2);
    DescribesTwo(layout, m, h + 1, n, h + 2);
    LastHides(t, h, layout[n], e);
  }

  lemma LastHides(t: State, h: Handle, ps: seq<Pipe>, e: byte)
    requires Inv(t) && Held(t) == [h, h + 1, h + 2] && Carries(t, h + 1, e)
    requires HoldsCached(t, ps, h + 2) && e in PipeIds(ps)
    ensures HandleFor(t, e) != Probe(t, e)
  {
    CarrierInFront(t, 1, e);
  }

  lemma DescribesTwo(layout: Layout, m: byte, x: Handle, n: byte, y: Handle)
    requires m in layout && n in layout
    ensures AllDescribe(layout, OneClaim(layout, m, x) + OneClaim(layout, n, y))
  {
    OneClaimDescribes(layout, m, x);
    OneClaimDescribes(layout, n, y);
    DescribeConcat(layout, OneClaim(layout, m, x), OneClaim(layout, n, y));
  }

  /** Two claims in a row, from any state that holds neither interface. */
  lemma ClaimTwo(s: State, layout: Layout, m: byte, x: Handle, n: byte, y: Handle) returns (t: State)
    requires Inv(s) && s.assoc == [] && x !in s.live && y !in s.live && x != y
    requires m in layout && n in layout && m != n && m != 0 && n != 0
    ensures Reaches(s, OneClaim(layout, m, x) + OneClaim(layout, n, y), t) && Inv(t)
    ensures Held(t) == Held(s) + [x] + [y]
    ensures t.pipes == s.pipes[x := layout[m]][y := layout[n]]
    ensures HoldsCached(t, layout[n], y)
  {
    var u := ClaimOne(s, layout, m, x);
    assert Position(u.assoc, n) == |u.assoc|;
    t := ClaimOne(u, layout, n, y);
    ReachesConcat(s, OneClaim(layout, m, x), u, OneClaim(layout, n, y), t);
  }

  /** The scan never goes past a handle that carries the address. */
  lemma CarrierInFront(t: State, i: nat, e: byte)
    requires Inv(t) && i < |Held(t)| && Carries(t, Held(t)[i], e)
    ensures exists j :: 0 <= j <= i && Probe(t, e) == Held(t)[j]
  {
    var j := ProbeIndex(t.pipes, Held(t), e);
    assert j <= i && Probe(t, e) == Held(t)[j];
  }

  /**
   The cache refines the scan exactly on the devices that follow section 9.6.3 of USB 2.0: the lookup
   agrees with the plain scan on all runs if and only if no address occurs on two interfaces.
   */
  lemma LookupAgreesExactlyOnDisjointLayouts(layout: Layout, h: Handle)
    requires 0 in layout
    ensures LookupAlwaysAgrees(layout, h) <==> Disjoint(layout)
  {
    if Disjoint(layout) {
      forall ops, t, e | Reaches(Opened(h, layout[0]), ops, t) && AllDescribe(layout, ops)
        ensures HandleFor(t, e) == Probe(t, e)
      {
        OpenedHasInv(h, layout[0]);
        RunKeepsExact(Opened(h, layout[0]), layout, false, ops, t);
        FitsAreDisjoint(t, layout);
        DisjointLookupIsProbe(t, e);
      }
    } else {
      var m, n, e :| m in layout && n in layout && e in PipeIds(layout[m]) && e in PipeIds(layout[n]) && m != n;
      if m == 0 {
        var ops, t := OverlapWithPrimary(layout, h, n, e);
      } else if n == 0 {
        var ops, t := OverlapWithPrimary(layout, h, m, e);
      } else {
        var ops, t := OverlapBetweenClaimed(layout, h, m, n, e);
      }
    }
  }

  // ---------------------------------------------------------------------------------------------
  // Single claims
  // ---------------------------------------------------------------------------------------------

  /** Index of the candidate a search settles on, or the number of candidates it may try. */
  function Settles(n: byte, replies: seq<Reply>): (k: nat)
    ensures k <= |replies|
    ensures k < |replies| ==> replies[k].Granted? && replies[k].number == Some(n)
  {
    if replies == [] || replies[0].Refused? then |replies|
    else if replies[0].number == Some(n) then 0
    else 1 + Settles(n, replies[1..])
  }

  lemma {:induction false} SettlesOnFirstMatch(n: byte, replies: seq<Reply>)
    ensures var k := Settles(n, replies);
            k < |replies| <==>
            exists i :: 0 <= i < |replies| && replies[i].Granted? && replies[i].number == Some(n) &&
              forall j :: 0 <= j < i ==> replies[j].Granted?
  {
    if replies != [] && replies[0].Granted? && replies[0].number != Some(n) {
      SettlesOnFirstMatch(n, replies[1..]);
      if i :| 0 <= i < |replies| && replies[i].Granted? && replies[i].number == Some(n) &&
              forall j :: 0 <= j < i ==> replies[j].Granted? {
        assert replies[1..][i - 1] == replies[i];
        assert forall j :: 0 <= j < i - 1 ==> replies[1..][j].Granted?;
      }
      if Settles(n, replies[1..]) < |replies[1..]| {
        var i :| 0 <= i < |replies[1..]| && replies[1..][i].Granted? && replies[1..][i].number == Some(n) &&
              forall j :: 0 <= j < i ==> replies[1..][j].Granted?;
        assert replies[i + 1] == replies[1..][i];
        assert forall j :: 0 <= j < i + 1 ==> replies[j] == if j == 0 then replies[0] else replies[1..][j - 1];
      }
    }
  }

  /** The candidates a search rejects: those granted before it settles or is refused. */
  function Rejected(n: byte, replies: seq<Reply>): seq<Handle> {
    if replies == [] || replies[0].Refused? || replies[0].number == Some(n) then []
    else [replies[0].handle] + Rejected(n, replies[1..])
  }

  /** The handle a search keeps. */
  function Kept(n: byte, replies: seq<Reply>): multiset<Handle> {
    if Settles(n, replies) < |replies| then multiset{replies[Settles(n, replies)].handle} else multiset{}
  }

  lemma {:induction false} SearchFreed(s: State, n: byte, replies: seq<Reply>)
    ensures Search(s, n, replies).0.freed == s.freed + Rejected(n, replies)
    decreases |replies|
  {
    if replies != [] && replies[0].Granted? && replies[0].number != Some(n) {
      var h := replies[0].handle;
      SearchFreed(Free(Grant(s, h, replies[0].pipes), h), n, replies[1..]);
      assert s.freed + Rejected(n, replies) == s.freed + [h] + Rejected(n, replies[1..]);
    } else {
      assert s.freed + [] == s.freed;
    }
  }

  lemma GrantedHead(granted: multiset<Handle>, h: Handle, rest: seq<Handle>, kept: multiset<Handle>)
    ensures granted + multiset([h] + rest) + kept == (granted + multiset{h}) + multiset(rest) + kept
  {
    assert multiset([h] + rest) == multiset{h} + multiset(rest);
  }

  lemma {:induction false} SearchGranted(s: State, n: byte, replies: seq<Reply>)
    ensures Search(s, n, replies).0.granted == s.granted + multiset(Rejected(n, replies)) + Kept(n, replies)
    decreases |replies|
  {
    if replies != [] && replies[0].Granted? && replies[0].number != Some(n) {
      var h, rest := replies[0].handle, replies[1..];
      SearchGranted(Free(Grant(s, h, replies[0].pipes), h), n, rest);
      assert Kept(n, replies) == Kept(n, rest);
      GrantedHead(s.granted, h, Rejected(n, rest), Kept(n, rest));
    }
  }

  /** A search succeeds exactly when it settles on a candidate; otherwise the device and the set of
      live handles are as before. Each rejected candidate was granted once and freed once, in order. */
  lemma {:induction false} SearchOutcome(s: State, n: byte, replies: seq<Reply>)
    requires Inv(s) && FreshReplies(s.live, replies)
    ensures var (t, r) := Search(s, n, replies);
            && (r.Ok? <==> Settles(n, replies) < |replies|)
            && (Settles(n, replies) < |replies| ==> t.assoc == s.assoc + [(n, replies[Settles(n, replies)].handle)])
            && (r.Err? ==> t.assoc == s.assoc && t.cache == s.cache && t.live == s.live)
            && t.primary == s.primary
            && t.freed == s.freed + Rejected(n, replies)
            && t.granted == s.granted + multiset(Rejected(n, replies)) + Kept(n, replies)
    decreases |replies|
  {
    if replies != [] && replies[0].Granted? && replies[0].number != Some(n) {
      var r := replies[0];
      var t := Free(Grant(s, r.handle, r.pipes), r.handle);
      RejectKeepsInv(s, r.handle, r.pipes);
      SearchOutcome(t, n, replies[1..]);
    }
    SearchFreed(s, n, replies);
    SearchGranted(s, n, replies);
  }

  /** Releasing what was just claimed restores the claimed interfaces and the live handles, and the
      cache except for the addresses of the released handle. */
  lemma ReleaseUndoesClaim(s: State, n: byte, x: Handle, ps: seq<Pipe>)
    requires Inv(s) && x !in s.live && n != 0 && Position(s.assoc, n) == |s.assoc|
    ensures s.primary in s.pipes
    ensures var t := Release(Claim(s, n, [Granted(x, Some(n), ps)]).0, n);
            && t.assoc == s.assoc && t.live == s.live && t.primary == s.primary
            && t.cache == s.cache - PipeIds(ps)
  {
    HeldDistinct(s);
    assert x !in s.cache.Values;
    ClaimAdopts(s, n, x, ps);
    var c := Adopted(s, n, x, ps);
    PositionAtEnd(s.assoc, n, x);
    var t := Release(c, n);
    assert t.assoc == s.assoc && t.live == s.live;
    EvictCached(s.cache, ps, x);
  }

  lemma EvictCached(cache: map<byte, Handle>, ps: seq<Pipe>, x: Handle)
    requires x !in cache.Values
    ensures Evict(Cached(cache, ps, Min(32, |ps|), x), x) == cache - PipeIds(ps)
  {
    CachedKeys(cache, ps, x);
  }

  lemma {:induction false} PositionAtEnd(assoc: seq<(byte, Handle)>, n: byte, x: Handle)
    requires Position(assoc, n) == |assoc|
    ensures Position(assoc + [(n, x)], n) == |assoc|
  {
    if assoc != [] {
      PositionAtEnd(assoc[1..], n, x);
      assert (assoc + [(n, x)])[1..] == assoc[1..] + [(n, x)];
    }
  }
}
