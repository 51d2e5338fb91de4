/** The reference-counted objects a macOS component holds, as the system's ledger of them. */
module IoKitLedger {
  import opened UsbBase

  datatype Kind = Iterator | Service | PlugIn | Interface | Port | Context | Dictionary

  /** One reference. Numbers are never given out twice, so releasing a live reference at most once
      means releasing every reference at most once. */
  datatype Ref = Ref(kind: Kind, id: nat)

  class Ledger {
    var live: set<Ref>
    var next: nat

    ghost predicate Valid()
      reads this
    {
      forall r :: r in live ==> r.id < next
    }

    constructor ()
      ensures Valid() && live == {}
    {
      live, next := {}, 0;
    }

    method Acquire(kind: Kind) returns (r: Ref)
      requires Valid()
      modifies this
      ensures Valid() && r.kind == kind && r !in old(live) && live == old(live) + {r}
    {
      r := Ref(kind, next);
      live := live + {r};
      next := next + 1;
    }

    method Release(r: Ref)
      requires Valid() && r in live
      modifies this
      ensures Valid() && live == old(live) - {r}
    {
      live := live - {r};
    }
  }
}
