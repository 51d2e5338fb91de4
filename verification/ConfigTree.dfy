/**
 A second, declarative reading of a descriptor chain, independent of the order in which the parser
 attaches records: the chain is cut at its interface records, every piece at its endpoint records,
 and of competing HID or companion records in a piece the last one counts.
 */
module ConfigTree {
  import opened UsbBase
  import opened DescriptorChain
  import opened ConfigDescriptor

  /** Number of records in front of the first one that `stop` accepts. */
  function Span(rs: seq<seq<byte>>, stop: seq<byte> -> bool): (n: nat)
    ensures n <= |rs|
    ensures forall i :: 0 <= i < n ==> !stop(rs[i])
    ensures n < |rs| ==> stop(rs[n])
  {
    if rs == [] || stop(rs[0]) then 0 else 1 + Span(rs[1..], stop)
  }

  predicate IsInterface(r: seq<byte>) { InterfaceAt(r).Ok? }
  predicate IsEndpoint(r: seq<byte>) { EndpointAt(r).Ok? }

  /** The last companion record among `rs`. */
  function LastCompanion(rs: seq<seq<byte>>): Option<Companion> {
    if rs == [] then None
    else if CompanionAt(rs[|rs| - 1]).Ok? then Some(CompanionAt(rs[|rs| - 1]).value)
    else LastCompanion(rs[..|rs| - 1])
  }

  /** The last HID record among `rs`. */
  function LastHid(rs: seq<seq<byte>>): Option<Hid> {
    if rs == [] then None
    else if HidAt(rs[|rs| - 1]).Ok? then Some(HidAt(rs[|rs| - 1]).value)
    else LastHid(rs[..|rs| - 1])
  }

  /** The endpoints announced in the body of one interface, each with the records up to the next one. */
  function EndpointsOf(body: seq<seq<byte>>): seq<Endpoint> {
    if body == [] then []
    else if IsEndpoint(body[0]) then
      var n := 1 + Span(body[1..], IsEndpoint);
      [EndpointAt(body[0]).value.(companion := LastCompanion(body[1..n]))] + EndpointsOf(body[n..])
    else EndpointsOf(body[1..])
  }

  function InterfaceOf(head: seq<byte>, body: seq<seq<byte>>): Interface
    requires IsInterface(head)
  {
    InterfaceAt(head).value.(endpoints := EndpointsOf(body), hid := LastHid(body))
  }

  function Tree(rs: seq<seq<byte>>): seq<Interface> {
    if rs == [] then []
    else if IsInterface(rs[0]) then
      var n := 1 + Span(rs[1..], IsInterface);
      [InterfaceOf(rs[0], rs[1..n])] + Tree(rs[n..])
    else Tree(rs[1..])
  }

  ghost predicate Free(rs: seq<seq<byte>>, stop: seq<byte> -> bool) {
    forall i :: 0 <= i < |rs| ==> !stop(rs[i])
  }

  lemma {:induction false} SpanOf(own: seq<seq<byte>>, rest: seq<seq<byte>>, stop: seq<byte> -> bool)
    requires Free(own, stop) && (rest == [] || stop(rest[0]))
    ensures Span(own + rest, stop) == |own|
  {
    if own == [] {
      assert own + rest == rest;
    } else {
      SpanOf(own[1..], rest, stop);
      assert (own + rest)[1..] == own[1..] + rest;
    }
  }

  /** Every list is a stop-free front and a rest that starts with a stop, if it is not empty. */
  lemma Cut(rs: seq<seq<byte>>, stop: seq<byte> -> bool)
    returns (own: seq<seq<byte>>, rest: seq<seq<byte>>)
    ensures rs == own + rest && Free(own, stop) && (rest == [] || stop(rest[0]))
  {
    var n := Span(rs, stop);
    own, rest := rs[..n], rs[n..];
  }

  function PieceEndpoint(e: seq<byte>, own: seq<seq<byte>>): seq<Endpoint>
    requires IsEndpoint(e)
  {
    [EndpointAt(e).value.(companion := LastCompanion(own))]
  }

  lemma SlicesOfPiece<T>(x: T, own: seq<T>, rest: seq<T>)
    ensures var t := [x] + (own + rest);
            t[0] == x && t[1..] == own + rest && t[1..1 + |own|] == own && t[1 + |own|..] == rest
  {
  }

  // How the two readings proceed at the head of a list.

  lemma EndpointsOfPiece(e: seq<byte>, own: seq<seq<byte>>, rest: seq<seq<byte>>)
    requires IsEndpoint(e) && Free(own, IsEndpoint) && (rest == [] || IsEndpoint(rest[0]))
    ensures EndpointsOf([e] + (own + rest)) == PieceEndpoint(e, own) + EndpointsOf(rest)
  {
    SpanOf(own, rest, IsEndpoint);
    SlicesOfPiece(e, own, rest);
  }

  lemma TreeOfPiece(head: seq<byte>, own: seq<seq<byte>>, rest: seq<seq<byte>>)
    requires IsInterface(head) && Free(own, IsInterface) && (rest == [] || IsInterface(rest[0]))
    ensures Tree([head] + (own + rest)) == [InterfaceOf(head, own)] + Tree(rest)
  {
    SpanOf(own, rest, IsInterface);
    SlicesOfPiece(head, own, rest);
  }

  /** One more record behind a body: an endpoint is appended, a companion goes to the last endpoint. */
  function Appended(es: seq<Endpoint>, r: seq<byte>): seq<Endpoint> {
    if EndpointAt(r).Ok? then es + [EndpointAt(r).value]
    else if CompanionAt(r).Ok? && es != [] then
      es[|es| - 1 := es[|es| - 1].(companion := Some(CompanionAt(r).value))]
    else es
  }

  lemma EndpointsOfOne(r: seq<byte>)
    requires IsEndpoint(r)
    ensures EndpointsOf([r]) == [EndpointAt(r).value]
  {
    assert [r][1..] == [] && [r][1..1] == [];
  }

  lemma {:induction false} EndpointsOfSnoc(body: seq<seq<byte>>, r: seq<byte>)
    ensures EndpointsOf(body + [r]) == Appended(EndpointsOf(body), r)
    decreases |body|
  {
    if body == [] {
      assert body + [r] == [r] && [r][1..] == [];
      if IsEndpoint(r) {
        EndpointsOfOne(r);
      }
    } else if !IsEndpoint(body[0]) {
      EndpointsOfSnoc(body[1..], r);
      assert (body + [r])[1..] == body[1..] + [r];
    } else {
      var own, rest := Cut(body[1..], IsEndpoint);
      EndpointsOfPieceSnoc(body[0], own, rest, r);
      assert body == [body[0]] + (own + rest);
    }
  }

  lemma AppendedBehind(front: seq<Endpoint>, back: seq<Endpoint>, r: seq<byte>)
    requires back != []
    ensures Appended(front + back, r) == front + Appended(back, r)
  {
  }

  lemma RegroupPiece<T>(x: T, own: seq<T>, rest: seq<T>, r: T)
    ensures [x] + (own + rest) + [r] == [x] + (own + (rest + [r]))
    ensures [x] + (own + []) + [r] == [x] + (own + [r]) == [x] + ((own + [r]) + [])
  {
  }

  lemma {:induction false} EndpointsOfPieceSnoc(
      e: seq<byte>, own: seq<seq<byte>>, rest: seq<seq<byte>>, r: seq<byte>)
    requires IsEndpoint(e) && Free(own, IsEndpoint) && (rest == [] || IsEndpoint(rest[0]))
    ensures var body := [e] + (own + rest);
            EndpointsOf(body + [r]) == Appended(EndpointsOf(body), r)
    decreases 1 + |own| + |rest|, 0
  {
    var body := [e] + (own + rest);
    assert EndpointsOf(body) == PieceEndpoint(e, own) + EndpointsOf(rest) by {
      EndpointsOfPiece(e, own, rest);
    }
    if rest != [] {
      EndpointsOfSnoc(rest, r);
      assert EndpointsOf(body + [r]) == PieceEndpoint(e, own) + EndpointsOf(rest + [r]) by {
        EndpointsOfPiece(e, own, rest + [r]);
        RegroupPiece(e, own, rest, r);
      }
      assert EndpointsOf(rest) != [];
      AppendedBehind(PieceEndpoint(e, own), EndpointsOf(rest), r);
    } else if IsEndpoint(r) {
      assert EndpointsOf(body + [r]) == PieceEndpoint(e, own) + EndpointsOf([r]) by {
        EndpointsOfPiece(e, own, [r]);
        RegroupPiece(e, own, [], r);
      }
      EndpointsOfOne(r);
    } else {
      assert EndpointsOf(body + [r]) == PieceEndpoint(e, own + [r]) by {
        EndpointsOfPiece(e, own + [r], []);
        RegroupPiece(e, own, [], r);
      }
      assert (own + [r])[..|own|] == own;
    }
  }

  lemma HidSnoc(body: seq<seq<byte>>, r: seq<byte>)
    ensures LastHid(body + [r]) == if HidAt(r).Ok? then Some(HidAt(r).value) else LastHid(body)
  {
    assert (body + [r])[..|body|] == body;
  }

  lemma InterfaceOfSnoc(head: seq<byte>, own: seq<seq<byte>>, r: seq<byte>)
    requires IsInterface(head) && !IsInterface(r)
    ensures [InterfaceOf(head, own + [r])] == Attach([InterfaceOf(head, own)], r)
  {
    assert EndpointsOf(own + [r]) == Appended(EndpointsOf(own), r) by {
      EndpointsOfSnoc(own, r);
    }
    assert LastHid(own + [r]) == if HidAt(r).Ok? then Some(HidAt(r).value) else LastHid(own) by {
      HidSnoc(own, r);
    }
  }

  /** Attaching to a list with a non-empty back leaves its front alone. */
  lemma AttachBehind(front: seq<Interface>, back: seq<Interface>, r: seq<byte>)
    requires back != []
    ensures Attach(front + back, r) == front + Attach(back, r)
  {
    assert (front + back)[|front + back| - 1] == back[|back| - 1];
  }

  lemma TreeOfOne(r: seq<byte>)
    requires IsInterface(r)
    ensures Tree([r]) == [InterfaceAt(r).value]
  {
    assert [r][1..] == [] && [r][1..1] == [];
  }

  lemma {:induction false} TreeSnoc(rs: seq<seq<byte>>, r: seq<byte>)
    ensures Tree(rs + [r]) == Attach(Tree(rs), r)
    decreases |rs|
  {
    if rs == [] {
      assert rs + [r] == [r] && [r][1..] == [];
      if IsInterface(r) {
        TreeOfOne(r);
      }
    } else if !IsInterface(rs[0]) {
      TreeSnoc(rs[1..], r);
      assert (rs + [r])[1..] == rs[1..] + [r];
    } else {
      var own, rest := Cut(rs[1..], IsInterface);
      TreeOfPieceSnoc(rs[0], own, rest, r);
      assert rs == [rs[0]] + (own + rest);
    }
  }

  /** A record behind a list with a later interface does not touch the first piece. */
  lemma TreeOfPieceMore(head: seq<byte>, own: seq<seq<byte>>, rest: seq<seq<byte>>, r: seq<byte>)
    requires IsInterface(head) && Free(own, IsInterface) && rest != [] && IsInterface(rest[0])
    requires Tree(rest + [r]) == Attach(Tree(rest), r)
    ensures var rs := [head] + (own + rest);
            Tree(rs + [r]) == Attach(Tree(rs), r)
  {
    var rs, first := [head] + (own + rest), [InterfaceOf(head, own)];
    TreeOfPiece(head, own, rest);
    assert Tree(rs + [r]) == first + Tree(rest + [r]) by {
      TreeOfPiece(head, own, rest + [r]);
      RegroupPiece(head, own, rest, r);
    }
    assert Tree(rest) != [];
    AttachBehind(first, Tree(rest), r);
  }

  /** A record behind a list of a single piece ends it or belongs to it. */
  lemma TreeOfPieceLast(head: seq<byte>, own: seq<seq<byte>>, r: seq<byte>)
    requires IsInterface(head) && Free(own, IsInterface)
    ensures var rs := [head] + (own + []);
            Tree(rs + [r]) == Attach(Tree(rs), r)
  {
    var rs, first := [head] + (own + []), [InterfaceOf(head, own)];
    assert Tree(rs) == first by {
      TreeOfPiece(head, own, []);
    }
    if IsInterface(r) {
      assert Tree(rs + [r]) == first + Tree([r]) by {
        TreeOfPiece(head, own, [r]);
        RegroupPiece(head, own, [], r);
      }
      TreeOfOne(r);
    } else {
      assert Tree(rs + [r]) == [InterfaceOf(head, own + [r])] by {
        TreeOfPiece(head, own + [r], []);
        RegroupPiece(head, own, [], r);
      }
      InterfaceOfSnoc(head, own, r);
    }
  }

  lemma {:induction false} TreeOfPieceSnoc(
      head: seq<byte>, own: seq<seq<byte>>, rest: seq<seq<byte>>, r: seq<byte>)
    requires IsInterface(head) && Free(own, IsInterface) && (rest == [] || IsInterface(rest[0]))
    ensures var rs := [head] + (own + rest);
            Tree(rs + [r]) == Attach(Tree(rs), r)
    decreases 1 + |own| + |rest|, 0
  {
    if rest != [] {
      TreeSnoc(rest, r);
      TreeOfPieceMore(head, own, rest, r);
    } else {
      TreeOfPieceLast(head, own, r);
    }
  }

  /** What the parser folds together is the tree read off the cuts of the chain. */
  lemma {:induction false} BuildIsTree(rs: seq<seq<byte>>)
    ensures Build(rs) == Tree(rs)
    decreases |rs|
  {
    if rs != [] {
      var front, r := rs[..|rs| - 1], rs[|rs| - 1];
      BuildIsTree(front);
      TreeSnoc(front, r);
      assert rs == front + [r];
    }
  }
}
