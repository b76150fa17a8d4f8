/** The shared routing index of confirmations, filetoolsserver/handler/confirmation_owner_index.go. */
module ConfirmationOwners {
  import opened Basics
  import opened Wrappers

  datatype OwnerError = InvalidReservation | Collision | LimitReached

  predicate ValidOwnerID(id: string) {
    |id| == 64 && forall c | c in id :: IsLowerHex(c)
  }

  /** The loop over the identifier's characters. */
  method ValidConfirmationOwnerID(id: string) returns (valid: bool)
    ensures valid == ValidOwnerID(id)
  {
    if |id| != 64 {
      return false;
    }
    for i := 0 to |id|
      invariant forall k | 0 <= k < i :: IsLowerHex(id[k])
    {
      if !IsLowerHex(id[i]) {
        return false;
      }
    }
    valid := true;
  }

  /** The admission capacities that count. */
  function SumPositive(capacities: seq<int>): nat {
    if capacities == [] then 0
    else SumPositive(capacities[..|capacities| - 1]) + var c := capacities[|capacities| - 1]; if c <= 0 then 0 else c
  }

  lemma {:induction false} SumPositiveGrows(capacities: seq<int>, i: nat)
    requires i <= |capacities|
    ensures SumPositive(capacities[..i]) <= SumPositive(capacities)
  {
    if i < |capacities| {
      SumPositiveGrows(capacities[..|capacities| - 1], i);
      assert capacities[..|capacities| - 1][..i] == capacities[..i];
    } else {
      assert capacities[..i] == capacities;
    }
  }

  /** The capacity loop: the sum of the positive capacities, stopped at the largest integer. */
  method ConfirmationOwnerCapacity(capacities: seq<int>) returns (total: int)
    requires forall i | 0 <= i < |capacities| :: capacities[i] <= MAX_INT64
    ensures total == if SumPositive(capacities) <= MAX_INT64 then SumPositive(capacities) else MAX_INT64
  {
    total := 0;
    for i := 0 to |capacities|
      invariant total == SumPositive(capacities[..i]) <= MAX_INT64
    {
      var capacity := capacities[i];
      assert capacities[..i + 1][..i] == capacities[..i];
      SumPositiveGrows(capacities, i + 1);
      if capacity <= 0 {
        continue;
      }
      if capacity > MAX_INT64 - total {
        return MAX_INT64;
      }
      total := total + capacity;
    }
    assert capacities[..|capacities|] == capacities;
  }

  // ----- what the reservations mean

  datatype Request = Reservation(id: string, owner: string) | Withdrawal(id: string, owner: string)

  /** A reservation that is not refused. */
  predicate Admits(owners: map<string, string>, maxEntries: int, id: string, owner: string) {
    owner != [] && ValidOwnerID(id) && id !in owners && |owners| < maxEntries
  }

  function Next(owners: map<string, string>, request: Request, maxEntries: int): map<string, string> {
    match request
    case Reservation(id, owner) => if Admits(owners, maxEntries, id, owner) then owners[id := owner] else owners
    case Withdrawal(id, owner) => if id in owners && owners[id] == owner then owners - {id} else owners
  }

  /** The reservations after some requests to an empty index. */
  function OwnersAfter(requests: seq<Request>, maxEntries: int): map<string, string> {
    if requests == [] then map[]
    else Next(OwnersAfter(requests[..|requests| - 1], maxEntries), requests[|requests| - 1], maxEntries)
  }

  /** Request `k` reserved the identifier for its owner, who has not forgotten it since. */
  ghost predicate ReservedAt(requests: seq<Request>, maxEntries: int, k: nat, id: string, owner: string) {
    && k < |requests| && requests[k] == Reservation(id, owner)
    && Admits(OwnersAfter(requests[..k], maxEntries), maxEntries, id, owner)
    && forall j | k < j < |requests| :: requests[j] != Withdrawal(id, owner)
  }

  lemma ReservedStep(init: seq<Request>, last: Request, maxEntries: int, k: nat, id: string, owner: string)
    ensures ReservedAt(init + [last], maxEntries, k, id, owner)
       <==> (ReservedAt(init, maxEntries, k, id, owner) && last != Withdrawal(id, owner))
            || (k == |init| && last == Reservation(id, owner) && Admits(OwnersAfter(init, maxEntries), maxEntries, id, owner))
  {
    hide OwnersAfter, Admits;
    assert (init + [last])[..|init|] == init;
    assert k < |init| ==> (init + [last])[..k] == init[..k] && (init + [last])[k] == init[k];
    assert forall j | 0 <= j < |init| :: (init + [last])[j] == init[j];
    assert (init + [last])[|init|] == last;
  }

  lemma OwnedNext(owners: map<string, string>, request: Request, maxEntries: int, id: string, owner: string)
    ensures var now := Next(owners, request, maxEntries);
            id in now && now[id] == owner
            <==> (id in owners && owners[id] == owner && request != Withdrawal(id, owner))
                 || (request == Reservation(id, owner) && Admits(owners, maxEntries, id, owner))
  {
    hide ValidOwnerID;
  }

  /** An identifier resolves to an owner exactly when that owner's reservation was accepted and the owner has
      not forgotten it since: no other reservation takes it over, and no other owner can forget it. */
  lemma {:induction false} ResolvesToItsReservation(requests: seq<Request>, maxEntries: int, id: string, owner: string)
    ensures id in OwnersAfter(requests, maxEntries) && OwnersAfter(requests, maxEntries)[id] == owner
       <==> exists k :: ReservedAt(requests, maxEntries, k, id, owner)
  {
    if requests != [] {
      var init, last := requests[..|requests| - 1], requests[|requests| - 1];
      ResolvesToItsReservation(init, maxEntries, id, owner);
      OwnedNext(OwnersAfter(init, maxEntries), last, maxEntries, id, owner);
      assert requests == init + [last];
      var now := OwnersAfter(requests, maxEntries);
      assert now == Next(OwnersAfter(init, maxEntries), last, maxEntries);
      hide ReservedAt, Next, Admits, OwnersAfter;
      ReservedStep(init, last, maxEntries, |init|, id, owner);
      if k :| ReservedAt(init, maxEntries, k, id, owner) {
        ReservedStep(init, last, maxEntries, k, id, owner);
      }
      if k :| ReservedAt(requests, maxEntries, k, id, owner) {
        ReservedStep(init, last, maxEntries, k, id, owner);
      }
    }
  }

  /** Each method holds the index's own lock for its whole duration. */
  class OwnerIndex {
    const maxEntries: int
    var owners: map<string, string>

    constructor (maxEntries: int)
      ensures this.maxEntries == maxEntries && owners == map[]
    {
      this.maxEntries := maxEntries;
      owners := map[];
    }

    method Reserve(id: string, owner: string) returns (error: Option<OwnerError>)
      modifies this`owners
      ensures error == Some(InvalidReservation) <==> owner == [] || !ValidOwnerID(id)
      ensures error == Some(Collision) <==> owner != [] && ValidOwnerID(id) && id in old(owners)
      ensures error == Some(LimitReached) <==>
                owner != [] && ValidOwnerID(id) && id !in old(owners) && |old(owners)| >= maxEntries
      ensures owners == if error.None? then old(owners)[id := owner] else old(owners)
      ensures owners == Next(old(owners), Reservation(id, owner), maxEntries)
    {
      var valid := ValidConfirmationOwnerID(id);
      if owner == [] || !valid {
        return Some(InvalidReservation);
      }
      if id in owners {
        return Some(Collision);
      }
      if maxEntries <= 0 || |owners| >= maxEntries {
        return Some(LimitReached);
      }
      owners := owners[id := owner];
      error := None;
    }

    method Resolve(id: string) returns (owner: Option<string>)
      ensures owner == if id in owners then Some(owners[id]) else None
    {
      owner := if id in owners then Some(owners[id]) else None;
    }

    /** Only the owner can forget its own reservation. */
    method Forget(id: string, owner: string) returns (forgotten: bool)
      modifies this`owners
      ensures forgotten <==> id in old(owners) && old(owners)[id] == owner
      ensures owners == if forgotten then old(owners) - {id} else old(owners)
      ensures owners == Next(old(owners), Withdrawal(id, owner), maxEntries)
    {
      if id !in owners || owners[id] != owner {
        return false;
      }
      owners := owners - {id};
      forgotten := true;
    }
  }
}
