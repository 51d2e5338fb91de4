/**
 The Linux endpoint cache against the selected alternate settings.

 The cache is filled from all alternate settings of the configuration, whichever is selected. This
 module says exactly when that makes no difference.
 */
module LinuxSettings {
  import opened UsbBase
  import opened ConfigDescriptor
  import opened ConfigLaws
  import opened LinuxDevice

  /** What one alternate setting says about its endpoints. */
  function Own(i: Interface): map<byte, EndpointInfo> {
    Entered(i.endpoints)
  }

  /** The interface descriptors at the places in `on`, in descriptor order. */
  function Chosen(ifs: seq<Interface>, on: set<nat>): seq<Interface> {
    if ifs == [] then []
    else Chosen(ifs[..|ifs| - 1], on) + if |ifs| - 1 in on then [ifs[|ifs| - 1]] else []
  }

  /** Some setting of interface `n` is in `on`. */
  ghost predicate Covers(ifs: seq<Interface>, on: set<nat>, n: byte) {
    exists j :: j in on && j < |ifs| && ifs[j].number == n
  }

  /** One alternate setting is selected for every interface number. */
  ghost predicate IsSelection(ifs: seq<Interface>, on: set<nat>) {
    && (forall i :: i in on ==> i < |ifs|)
    && (forall i :: 0 <= i < |ifs| ==> Covers(ifs, on, ifs[i].number))
    && (forall i, j :: i in on && j in on && i < |ifs| && j < |ifs| && ifs[i].number == ifs[j].number ==> i == j)
  }

  /** What the cache holds. */
  function Cached(ifs: seq<Interface>): map<byte, EndpointInfo> {
    Entered(AllEndpoints(ifs))
  }

  /** The cache answers for every selection as the selected settings do. */
  ghost predicate FollowsEverySelection(ifs: seq<Interface>) {
    forall on :: IsSelection(ifs, on) ==> Cached(Chosen(ifs, on)) == Cached(ifs)
  }

  // ---------------------------------------------------------------------------------------------
  // The last setting that carries an address decides
  // ---------------------------------------------------------------------------------------------

  lemma CachedSnoc(ifs: seq<Interface>, i: Interface)
    ensures Cached(ifs + [i]) == Cached(ifs) + Own(i)
  {
    assert (ifs + [i])[..|ifs|] == ifs;
    EnteredConcat(AllEndpoints(ifs), i.endpoints);
  }

  /** Place `i` is the last one in `on` whose setting carries `e`. */
  ghost predicate IsTop(ifs: seq<Interface>, on: set<nat>, e: byte, i: nat) {
    && i < |ifs| && i in on && e in Own(ifs[i])
    && forall j :: i < j < |ifs| && j in on ==> e !in Own(ifs[j])
  }

  lemma {:induction false} TopDecides(ifs: seq<Interface>, on: set<nat>, e: byte)
    ensures e in Cached(Chosen(ifs, on)) <==> exists i: nat :: IsTop(ifs, on, e, i)
    ensures forall i: nat :: IsTop(ifs, on, e, i) ==> Cached(Chosen(ifs, on))[e] == Own(ifs[i])[e]
    decreases |ifs|
  {
    if ifs != [] {
      var n := |ifs| - 1;
      var front := ifs[..n];
      TopDecides(front, on, e);
      if n in on {
        CachedSnoc(Chosen(front, on), ifs[n]);
      } else {
        assert Chosen(ifs, on) == Chosen(front, on);
      }
      if n in on && e in Own(ifs[n]) {
        assert IsTop(ifs, on, e, n);
      } else {
        assert forall i: nat :: IsTop(ifs, on, e, i) <==> IsTop(front, on, e, i);
      }
    }
  }

  /** All places below `n`. */
  function Places(n: nat): (all: set<nat>)
    ensures forall i: nat :: i in all <==> i < n
  {
    if n == 0 then {} else Places(n - 1) + {n - 1}
  }

  lemma {:induction false} ChosenAll(ifs: seq<Interface>, on: set<nat>)
    requires forall i: nat :: i < |ifs| ==> i in on
    ensures Chosen(ifs, on) == ifs
    decreases |ifs|
  {
    if ifs != [] {
      ChosenAll(ifs[..|ifs| - 1], on);
    }
  }

  /** What is cached comes from some setting, and from the last one that carries the address. */
  lemma CachedTop(ifs: seq<Interface>, e: byte)
    ensures e in Cached(ifs) <==> exists i: nat :: i < |ifs| && e in Own(ifs[i])
    ensures forall i: nat :: IsTop(ifs, Places(|ifs|), e, i) ==> e in Cached(ifs) && Cached(ifs)[e] == Own(ifs[i])[e]
  {
    ChosenAll(ifs, Places(|ifs|));
    TopDecides(ifs, Places(|ifs|), e);
    if i: nat :| i < |ifs| && e in Own(ifs[i]) {
      TopExists(ifs, Places(|ifs|), e, i);
    }
  }

  lemma {:induction false} TopExists(ifs: seq<Interface>, on: set<nat>, e: byte, i: nat)
    requires i < |ifs| && i in on && e in Own(ifs[i])
    ensures exists j: nat :: i <= j && IsTop(ifs, on, e, j)
    decreases |ifs| - i
  {
    if !IsTop(ifs, on, e, i) {
      var j :| i < j < |ifs| && j in on && e in Own(ifs[j]);
      TopExists(ifs, on, e, j);
    }
  }

  // ---------------------------------------------------------------------------------------------
  // When the selection makes no difference
  // ---------------------------------------------------------------------------------------------

  /** Whatever is selected for interface `n`, it carries `e` and lies behind place `i`. */
  ghost predicate Pinned(ifs: seq<Interface>, n: byte, e: byte, i: int) {
    && (exists j :: 0 <= j < |ifs| && ifs[j].number == n)
    && forall j :: 0 <= j < |ifs| && ifs[j].number == n ==> e in Own(ifs[j]) && i < j
  }

  /** A setting of interface `n` that keeps out of the way of place `i`. */
  ghost function Evader(ifs: seq<Interface>, n: byte, e: byte, i: int): (j: nat)
    requires exists j :: 0 <= j < |ifs| && ifs[j].number == n
    requires !Pinned(ifs, n, e, i)
    ensures j < |ifs| && ifs[j].number == n && !(e in Own(ifs[j]) && i < j)
  {
    var j :| 0 <= j < |ifs| && ifs[j].number == n && !(e in Own(ifs[j]) && i < j);
    j
  }

  /** The selection against `e`: place `i`, if it is one, for its own interface, and evaders elsewhere. */
  lemma Adversary(ifs: seq<Interface>, e: byte, i: int) returns (on: set<nat>)
    requires -1 <= i < |ifs|
    requires forall n :: (0 <= i ==> n != ifs[i].number) ==> !Pinned(ifs, n, e, i)
    ensures IsSelection(ifs, on)
    ensures 0 <= i ==> i in on
    ensures forall j :: j in on && i < j < |ifs| ==> e !in Own(ifs[j])
  {
    on := set j: nat | j in Places(|ifs|) && j == Pick(ifs, ifs[j].number, e, i);
    forall k | 0 <= k < |ifs|
      ensures Covers(ifs, on, ifs[k].number)
    {
      var j := Pick(ifs, ifs[k].number, e, i);
      assert j in on;
    }
  }

  ghost function Pick(ifs: seq<Interface>, n: byte, e: byte, i: int): (j: nat)
    requires -1 <= i < |ifs|
    requires exists j :: 0 <= j < |ifs| && ifs[j].number == n
    requires (0 <= i ==> n != ifs[i].number) ==> !Pinned(ifs, n, e, i)
    ensures j < |ifs| && ifs[j].number == n
    ensures 0 <= i && n == ifs[i].number ==> j == i
    ensures (0 <= i ==> n != ifs[i].number) ==> !(e in Own(ifs[j]) && i < j)
  {
    if 0 <= i && n == ifs[i].number then i else Evader(ifs, n, e, i)
  }

  /** Some interface always offers `e`, and every setting that says something else about `e` than the cache
      is always overruled by another interface. */
  ghost predicate Settled(ifs: seq<Interface>, e: byte) {
    && e in Cached(ifs)
    && (exists n :: Pinned(ifs, n, e, -1))
    && forall i :: 0 <= i < |ifs| && e in Own(ifs[i]) && Own(ifs[i])[e] != Cached(ifs)[e] ==>
         exists n :: n != ifs[i].number && Pinned(ifs, n, e, i)
  }

  /** Of a pinned interface, some setting that carries `e` behind place `i` is selected. */
  lemma SelectedBehind(ifs: seq<Interface>, on: set<nat>, n: byte, e: byte, i: int)
    requires IsSelection(ifs, on) && Pinned(ifs, n, e, i)
    ensures exists j :: j in on && j < |ifs| && e in Own(ifs[j]) && i < j
  {
    var k :| 0 <= k < |ifs| && ifs[k].number == n;
    assert Covers(ifs, on, ifs[k].number);
  }

  lemma TopIsNotOverruled(ifs: seq<Interface>, on: set<nat>, n: byte, e: byte, top: nat)
    requires IsSelection(ifs, on) && IsTop(ifs, on, e, top)
    ensures !Pinned(ifs, n, e, top)
  {
    if Pinned(ifs, n, e, top) {
      SelectedBehind(ifs, on, n, e, top);
    }
  }

  lemma SettledFollows(ifs: seq<Interface>, on: set<nat>, e: byte)
    requires IsSelection(ifs, on) && Settled(ifs, e)
    ensures e in Cached(Chosen(ifs, on)) && Cached(Chosen(ifs, on))[e] == Cached(ifs)[e]
  {
    TopDecides(ifs, on, e);
    var n :| Pinned(ifs, n, e, -1);
    SelectedBehind(ifs, on, n, e, -1);
    var j :| j in on && j < |ifs| && e in Own(ifs[j]);
    TopExists(ifs, on, e, j);
    var top: nat :| IsTop(ifs, on, e, top);
    forall n ensures !Pinned(ifs, n, e, top) {
      TopIsNotOverruled(ifs, on, n, e, top);
    }
  }

  /** Where nothing stands in its way, the adversary makes the cache wrong. */
  lemma AdversaryWins(ifs: seq<Interface>, e: byte, i: int)
    requires -1 <= i < |ifs| && e in Cached(ifs)
    requires forall n :: (0 <= i ==> n != ifs[i].number) ==> !Pinned(ifs, n, e, i)
    requires 0 <= i ==> e in Own(ifs[i]) && Own(ifs[i])[e] != Cached(ifs)[e]
    ensures !FollowsEverySelection(ifs)
  {
    var on := Adversary(ifs, e, i);
    TopDecides(ifs, on, e);
    if 0 <= i {
      assert IsTop(ifs, on, e, i);
    }
    assert Cached(Chosen(ifs, on)) != Cached(ifs);
  }

  lemma FollowingSettles(ifs: seq<Interface>, e: byte)
    requires FollowsEverySelection(ifs) && e in Cached(ifs)
    ensures Settled(ifs, e)
  {
    if forall n :: !Pinned(ifs, n, e, -1) {
      AdversaryWins(ifs, e, -1);
    }
    forall i | 0 <= i < |ifs| && e in Own(ifs[i]) && Own(ifs[i])[e] != Cached(ifs)[e]
      ensures exists n :: n != ifs[i].number && Pinned(ifs, n, e, i)
    {
      if forall n :: n != ifs[i].number ==> !Pinned(ifs, n, e, i) {
        AdversaryWins(ifs, e, i);
      }
    }
  }

  /**
   The cache follows every selection of alternate settings if and only if every cached address is settled.
   Any number of interfaces and settings, addresses shared between interfaces or not.
   */
  lemma FollowsExactlyWhenSettled(ifs: seq<Interface>)
    ensures FollowsEverySelection(ifs) <==> forall e :: e in Cached(ifs) ==> Settled(ifs, e)
  {
    if FollowsEverySelection(ifs) {
      forall e | e in Cached(ifs) ensures Settled(ifs, e) {
        FollowingSettles(ifs, e);
      }
    }
    if forall e :: e in Cached(ifs) ==> Settled(ifs, e) {
      forall on | IsSelection(ifs, on) ensures Cached(Chosen(ifs, on)) == Cached(ifs) {
        SettledEverywhere(ifs, on);
      }
    }
  }

  lemma SettledEverywhere(ifs: seq<Interface>, on: set<nat>)
    requires IsSelection(ifs, on) && forall e :: e in Cached(ifs) ==> Settled(ifs, e)
    ensures Cached(Chosen(ifs, on)) == Cached(ifs)
  {
    forall e: byte
      ensures e in Cached(Chosen(ifs, on)) <==> e in Cached(ifs)
      ensures e in Cached(ifs) ==> Cached(Chosen(ifs, on))[e] == Cached(ifs)[e]
    {
      if e in Cached(ifs) {
        SettledFollows(ifs, on, e);
      } else {
        CachedTop(ifs, e);
        TopDecides(ifs, on, e);
      }
    }
  }

  /** No address occurs on two interfaces (section 9.6.3 of USB 2.0). */
  ghost predicate SeparateInterfaces(ifs: seq<Interface>) {
    forall i, j, e :: 0 <= i < |ifs| && 0 <= j < |ifs| && e in Own(ifs[i]) && e in Own(ifs[j]) ==>
                        ifs[i].number == ifs[j].number
  }

  /**
   Where interfaces do not share addresses, the cache follows every selection exactly when all alternate
   settings of an interface list the same addresses with the same information.
   */
  lemma FollowsExactlyWhenSettingsAgree(ifs: seq<Interface>)
    requires SeparateInterfaces(ifs)
    ensures FollowsEverySelection(ifs) <==>
            forall i, j :: 0 <= i < |ifs| && 0 <= j < |ifs| && ifs[i].number == ifs[j].number ==>
                             Own(ifs[i]) == Own(ifs[j])
  {
    FollowsExactlyWhenSettled(ifs);
    if FollowsEverySelection(ifs) {
      forall i, j | 0 <= i < |ifs| && 0 <= j < |ifs| && ifs[i].number == ifs[j].number
        ensures Own(ifs[i]) == Own(ifs[j])
      {
        SettledAgrees(ifs, i, j);
        SettledAgrees(ifs, j, i);
      }
    }
    if forall i, j :: 0 <= i < |ifs| && 0 <= j < |ifs| && ifs[i].number == ifs[j].number ==>
                        Own(ifs[i]) == Own(ifs[j]) {
      forall e | e in Cached(ifs) ensures Settled(ifs, e) {
        AgreeingSettles(ifs, e);
      }
    }
  }

  lemma SettledAgrees(ifs: seq<Interface>, i: nat, j: nat)
    requires SeparateInterfaces(ifs) && i < |ifs| && j < |ifs| && ifs[i].number == ifs[j].number
    requires forall e :: e in Cached(ifs) ==> Settled(ifs, e)
    ensures forall e :: e in Own(ifs[i]) ==> e in Own(ifs[j]) && Own(ifs[i])[e] == Own(ifs[j])[e]
  {
    forall e | e in Own(ifs[i])
      ensures e in Own(ifs[j]) && Own(ifs[i])[e] == Own(ifs[j])[e]
    {
      CachedTop(ifs, e);
      assert Settled(ifs, e);
      assert forall n :: Pinned(ifs, n, e, -1) ==> n == ifs[i].number;
      assert forall n, k :: Pinned(ifs, n, e, k) ==> n == ifs[i].number;
    }
  }

  lemma AgreeingSettles(ifs: seq<Interface>, e: byte)
    requires SeparateInterfaces(ifs) && e in Cached(ifs)
    requires forall i, j :: 0 <= i < |ifs| && 0 <= j < |ifs| && ifs[i].number == ifs[j].number ==>
                              Own(ifs[i]) == Own(ifs[j])
    ensures Settled(ifs, e)
  {
    CachedTop(ifs, e);
    var i: nat :| i < |ifs| && e in Own(ifs[i]);
    TopExists(ifs, Places(|ifs|), e, i);
    var top: nat :| IsTop(ifs, Places(|ifs|), e, top);
    assert Pinned(ifs, ifs[top].number, e, -1);
  }

  /** An interface whose two alternate settings give one address different packet sizes. */
  function TwoSettings(): Config {
    var slow := Interface(0, 0, 1, 0xFF, 0, 0, 0, [Endpoint(0x81, 2, 64, 0, None)], None);
    var fast := slow.(alternateSetting := 1, endpoints := [Endpoint(0x81, 2, 512, 0, None)]);
    Config(41, 1, 1, 0, 0x80, 50, [slow, fast])
  }

  lemma TwoSettingsAreRead()
    ensures Parse(Encode(TwoSettings())) == Ok(TwoSettings())
  {
    var c := TwoSettings();
    var slow, fast := c.interfaces[0], c.interfaces[1];
    TreeSizeIsLength(c.interfaces);
    assert c.interfaces[..1] == [slow] && [slow][..0] == [];
    assert slow.endpoints[..0] == [] && fast.endpoints[..0] == [];
    assert TreeSize([slow]) == 16 && TreeSize(c.interfaces) == 32;
    assert |Encode(c)| == 41;
    RoundTrip(c);
  }

  /** Of two settings of one interface that both carry `e`, the cache always answers as the second. */
  lemma TwoAnswers(ifs: seq<Interface>, e: byte)
    requires |ifs| == 2 && ifs[0].number == ifs[1].number && e in Own(ifs[0]) && e in Own(ifs[1])
    ensures e in Cached(ifs) && Cached(ifs)[e] == Own(ifs[1])[e]
    ensures e in Cached(Chosen(ifs, {0})) && Cached(Chosen(ifs, {0}))[e] == Own(ifs[0])[e]
  {
    assert e in Cached(Chosen(ifs, {0})) && Cached(Chosen(ifs, {0}))[e] == Own(ifs[0])[e] by {
      assert IsTop(ifs, {0}, e, 0);
      TopDecides(ifs, {0}, e);
    }
    assert IsTop(ifs, Places(2), e, 1);
    CachedTop(ifs, e);
  }

  /** Either of two settings of one interface may be the selected one. */
  lemma EitherIsSelected(ifs: seq<Interface>, k: nat)
    requires |ifs| == 2 && ifs[0].number == ifs[1].number && k < 2
    ensures IsSelection(ifs, {k})
  {
    assert k in {k} && ifs[k].number == ifs[0].number;
    assert Covers(ifs, {k}, ifs[0].number);
  }

  lemma OwnOfOne(i: Interface, ep: Endpoint)
    requires i.endpoints == [ep]
    ensures Own(i) == map[ep.address := InfoOf(ep)]
  {
    EnteredSnoc([], ep);
    assert [] + [ep] == [ep] && Entered([]) == map[];
  }

  /** That configuration is read from the wire as it is, and whichever setting is selected, the cache answers
      512. */
  lemma SettingsMayDisagree()
    ensures Parse(Encode(TwoSettings())) == Ok(TwoSettings())
    ensures var ifs := TwoSettings().interfaces;
            && IsSelection(ifs, {0}) && IsSelection(ifs, {1})
            && 0x81 in Cached(ifs) && Cached(ifs)[0x81].maxPacketSize == 512
            && 0x81 in Cached(Chosen(ifs, {0})) && Cached(Chosen(ifs, {0}))[0x81].maxPacketSize == 64
  {
    TwoSettingsAreRead();
    var ifs := TwoSettings().interfaces;
    OwnOfOne(ifs[0], ifs[0].endpoints[0]);
    OwnOfOne(ifs[1], ifs[1].endpoints[0]);
    EitherIsSelected(ifs, 0);
    EitherIsSelected(ifs, 1);
    TwoAnswers(ifs, 0x81);
  }
}
