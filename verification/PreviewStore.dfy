/** A bounded one-shot preview cache, filetoolsserver/handler/edit_preview.go, byte_mutation_preview.go,
    markdown_edit_preview.go and gc_preview.go: oldest-first eviction under an entry limit and a byte limit,
    expiry, and a reservation in the shared routing index for every live preview.
 */
module PreviewStore {
  import opened Basics
  import opened Wrappers
  import opened PreviewHistory
  import opened ConfirmationOwners

  datatype StoreError =
    | InvalidInput
    | PlanTooLarge
    | RandomFailed
    | NoUniqueID
    | NotRouted(error: OwnerError)
    | Unavailable
    | WrongKind

  // ----- bytes, expiry, room

  function Bytes(entries: map<string, Preview>, order: seq<string>): nat
    requires forall id | id in order :: id in entries
  {
    if order == [] then 0 else entries[order[0]].retainedBytes + Bytes(entries, order[1..])
  }

  ghost predicate Expired(entries: map<string, Preview>, id: string, now: int) {
    id in entries && entries[id].expiresAt <= now
  }

  /** The ids that outlive `now`, in order. */
  ghost function Unexpired(entries: map<string, Preview>, order: seq<string>, now: int): (rest: seq<string>)
    ensures forall id :: id in rest <==> id in order && !Expired(entries, id, now)
  {
    if order == [] then []
    else
      var last := order[|order| - 1];
      Unexpired(entries, order[..|order| - 1], now) + if Expired(entries, last, now) then [] else [last]
  }

  ghost function ExpiredOnes(entries: map<string, Preview>, order: seq<string>, now: int): seq<string> {
    if order == [] then []
    else
      var last := order[|order| - 1];
      ExpiredOnes(entries, order[..|order| - 1], now) + if Expired(entries, last, now) then [last] else []
  }

  lemma ExpiryStep(entries: map<string, Preview>, order: seq<string>, now: int, j: nat)
    requires j < |order|
    ensures Unexpired(entries, order[..j + 1], now)
         == Unexpired(entries, order[..j], now) + if Expired(entries, order[j], now) then [] else [order[j]]
    ensures ExpiredOnes(entries, order[..j + 1], now)
         == ExpiredOnes(entries, order[..j], now) + if Expired(entries, order[j], now) then [order[j]] else []
  {
    assert order[..j + 1][..j] == order[..j];
  }

  /** A preview that is where it was, and still to expire. */
  ghost predicate Stays(was: map<string, Preview>, entries: map<string, Preview>, id: string, now: int) {
    id in was && id in entries && entries[id] == was[id] && was[id].expiresAt > now
  }

  ghost predicate AllStay(was: map<string, Preview>, entries: map<string, Preview>, now: int, except: set<string>) {
    forall id | id in entries && id !in except :: Stays(was, entries, id, now)
  }

  lemma LeftStay(was: map<string, Preview>, list: seq<string>, now: int, kept: seq<string>, evicted: nat)
    requires kept == Unexpired(was, list, now) && evicted <= |kept| && forall id :: id in list <==> id in was
    ensures AllStay(was, Restrict(was, kept[evicted..]), now, {})
  {
    var left := Restrict(was, kept[evicted..]);
    forall id | id in left ensures Stays(was, left, id, now) {
      assert id in kept;
    }
  }

  lemma OneMoreStays(was: map<string, Preview>, entries: map<string, Preview>, now: int, id: string, preview: Preview)
    requires AllStay(was, entries, now, {})
    ensures AllStay(was, entries[id := preview], now, {id})
  {
    var more := entries[id := preview];
    forall x | x in more && x != id ensures Stays(was, more, x, now) {
      assert Stays(was, entries, x, now);
    }
  }

  /** The answer to a claim: the preview exactly while it is live, unexpired and of the expected kind. */
  ghost predicate IsAnswer(was: map<string, Preview>, id: string, expectedKind: string, now: int,
                           result: Result<Preview, StoreError>) {
    if !ValidPreviewID(id) then result == Err(InvalidInput)
    else if !(id in was && was[id].expiresAt > now) then result == Err(Unavailable)
    else if was[id].kind != expectedKind then result == Err(WrongKind)
    else result == Ok(was[id])
  }

  lemma AnswerIs(was: map<string, Preview>, id: string, expectedKind: string, now: int)
    ensures !ValidPreviewID(id) ==> IsAnswer(was, id, expectedKind, now, Err(InvalidInput))
    ensures ValidPreviewID(id) ==>
              if !(id in was && was[id].expiresAt > now) then IsAnswer(was, id, expectedKind, now, Err(Unavailable))
              else IsAnswer(was, id, expectedKind, now, if was[id].kind == expectedKind then Ok(was[id]) else Err(WrongKind))
  {
  }

  /** What is left are exactly the previews that are still to expire, but for those taken, each as it was. */
  ghost predicate Left(was: map<string, Preview>, entries: map<string, Preview>, now: int, taken: set<string>) {
    && (forall id :: id in entries <==> id in was && was[id].expiresAt > now && id !in taken)
    && (forall id | id in entries :: entries[id] == was[id])
  }

  lemma LeftWithout(was: map<string, Preview>, entries: map<string, Preview>, now: int, id: string)
    requires Left(was, entries, now, {})
    ensures Left(was, entries - {id}, now, {id})
  {
  }

  lemma LeftMeans(was: map<string, Preview>, entries: map<string, Preview>, now: int, id: string)
    requires Left(was, entries, now, {})
    ensures id in entries <==> id in was && was[id].expiresAt > now
    ensures id in entries ==> entries[id] == was[id]
  {
  }

  /** What is left after an expiry: the previews that are still to expire. */
  lemma Survivors(was: map<string, Preview>, list: seq<string>, now: int)
    requires Live(was, list).Sound()
    ensures Left(was, Restrict(was, Unexpired(was, list, now)), now, {})
  {
  }

  function Restrict(entries: map<string, Preview>, ids: seq<string>): map<string, Preview> {
    map id | id in entries && id in ids :: entries[id]
  }

  /** There is room for another preview beside those listed. */
  predicate Room(entries: map<string, Preview>, order: seq<string>, maxEntries: int, maxBytes: int, retained: int)
    requires forall id | id in order :: id in entries
  {
    |order| < maxEntries && Bytes(entries, order) <= maxBytes - retained
  }

  /** `k` is how many of the oldest must go, and no fewer would do. */
  ghost predicate ShortestPrefix(entries: map<string, Preview>, order: seq<string>, k: nat,
                                 maxEntries: int, maxBytes: int, retained: int)
    requires forall id | id in order :: id in entries
  {
    && k <= |order| && Room(entries, order[k..], maxEntries, maxBytes, retained)
    && forall j | 0 <= j < k :: !Room(entries, order[j..], maxEntries, maxBytes, retained)
  }

  /** The index assigns to the store's kinds exactly the live ids. */
  ghost predicate Agrees(owners: map<string, string>, entries: map<string, Preview>, kinds: set<string>) {
    && (forall id | id in entries :: entries[id].kind in kinds && id in owners && owners[id] == entries[id].kind)
    && (forall id | id in owners && owners[id] in kinds :: id in entries)
  }

  lemma {:induction false} BytesWithout(entries: map<string, Preview>, order: seq<string>, id: string)
    requires forall x | x in order :: x in entries
    requires forall i, j | 0 <= i < j < |order| :: order[i] != order[j]
    requires id in order
    ensures Bytes(entries - {id}, Without(order, id)) == Bytes(entries, order) - entries[id].retainedBytes
  {
    if order[0] == id {
      assert id !in order[1..];
      WithoutAbsent(order[1..], id);
      BytesElsewhere(entries, entries - {id}, order[1..]);
    } else {
      BytesWithout(entries, order[1..], id);
    }
  }

  lemma {:induction false} WithoutAbsent(order: seq<string>, id: string)
    requires id !in order
    ensures Without(order, id) == order
  {
    if order != [] {
      WithoutAbsent(order[1..], id);
    }
  }

  lemma {:induction false} BytesElsewhere(was: map<string, Preview>, now: map<string, Preview>, order: seq<string>)
    requires forall x | x in order :: x in was && x in now && was[x] == now[x]
    ensures Bytes(was, order) == Bytes(now, order)
  {
    if order != [] {
      BytesElsewhere(was, now, order[1..]);
    }
  }

  lemma {:induction false} BytesAppend(entries: map<string, Preview>, order: seq<string>, id: string)
    requires id in entries && forall x | x in order :: x in entries
    ensures Bytes(entries, order + [id]) == Bytes(entries, order) + entries[id].retainedBytes
  {
    if order == [] {
      assert [] + [id] == [id] && [id][1..] == [];
    } else {
      assert (order + [id])[1..] == order[1..] + [id];
      BytesAppend(entries, order[1..], id);
    }
  }

  // ----- the state as a value

  /** What a valid store holds: its history's live previews, their exact bytes, within the limits. */
  ghost predicate Holds(history: seq<Event>, entries: map<string, Preview>, order: seq<string>, totalBytes: int) {
    && Legal(history) && Replay(history) == Live(entries, order)
    && Live(entries, order).Sound()
    && totalBytes == Bytes(entries, order)
  }

  lemma RemovedHolds(history: seq<Event>, entries: map<string, Preview>, order: seq<string>, totalBytes: int,
                     event: Event)
    requires Holds(history, entries, order, totalBytes) && !event.Put? && Possible(Live(entries, order), event)
    ensures Holds(history + [event], entries - {event.id}, Without(order, event.id),
                  totalBytes - entries[event.id].retainedBytes)
    ensures totalBytes - entries[event.id].retainedBytes >= 0
  {
    NextEvent(history, event);
    Live(entries, order).RemovedSound(event.id);
    BytesWithout(entries, order, event.id);
  }

  lemma AddedHolds(history: seq<Event>, entries: map<string, Preview>, order: seq<string>, totalBytes: int,
                   id: string, preview: Preview)
    requires Holds(history, entries, order, totalBytes) && id !in entries
    ensures Holds(history + [Put(id, preview)], entries[id := preview], order + [id], totalBytes + preview.retainedBytes)
  {
    NextEvent(history, Put(id, preview));
    Live(entries, order).AddedSound(id, preview);
    BytesElsewhere(entries, entries[id := preview], order);
    BytesAppend(entries[id := preview], order, id);
  }

  lemma RemovedAgrees(owners: map<string, string>, entries: map<string, Preview>, kinds: set<string>, id: string)
    requires Agrees(owners, entries, kinds) && id in entries
    ensures id in owners && owners[id] == entries[id].kind && Agrees(owners - {id}, entries - {id}, kinds)
  {
  }

  lemma AddedAgrees(owners: map<string, string>, entries: map<string, Preview>, kinds: set<string>, id: string,
                    preview: Preview)
    requires Agrees(owners, entries, kinds) && id !in owners && preview.kind in kinds
    ensures Agrees(owners[id := preview.kind], entries[id := preview], kinds) && id !in entries
  {
  }

  function DropAll(ids: seq<string>): seq<Event> {
    seq(|ids|, k requires 0 <= k < |ids| => Dropped(ids[k]))
  }

  lemma DropOneMore(ids: seq<string>, id: string, history: seq<Event>)
    ensures history + DropAll(ids + [id]) == history + DropAll(ids) + [Dropped(id)]
  {
    assert DropAll(ids + [id]) == DropAll(ids) + [Dropped(id)];
  }

  lemma DropNothing(history: seq<Event>)
    ensures history + DropAll([]) == history
  {
  }

  lemma {:induction false} WithoutAt(front: seq<string>, id: string, back: seq<string>)
    requires id !in front && id !in back
    ensures Without(front + [id] + back, id) == front + back
  {
    if front == [] {
      WithoutAbsent(back, id);
      assert ([] + [id] + back)[1..] == back;
    } else {
      WithoutAt(front[1..], id, back);
      assert (front + [id] + back)[1..] == front[1..] + [id] + back;
    }
  }

  lemma WithoutMiddle(front: seq<string>, id: string, back: seq<string>)
    requires forall i, j | 0 <= i < j < |front + [id] + back| :: (front + [id] + back)[i] != (front + [id] + back)[j]
    ensures Without(front + [id] + back, id) == front + back
  {
    var whole := front + [id] + back;
    assert forall k | 0 <= k < |front| :: front[k] == whole[k];
    assert forall k | 0 <= k < |back| :: back[k] == whole[|front| + 1 + k];
    assert whole[|front|] == id;
    WithoutAt(front, id, back);
  }

  lemma RestrictedFurther(was: map<string, Preview>, order: seq<string>, id: string)
    ensures Restrict(was, order) - {id} == Restrict(was, Without(order, id))
  {
  }

  lemma RestrictAll(entries: map<string, Preview>, order: seq<string>)
    requires Live(entries, order).Sound()
    ensures Restrict(entries, order) == entries
  {
  }

  lemma RestrictedTwice(entries: map<string, Preview>, kept: seq<string>, rest: seq<string>)
    requires forall id | id in rest :: id in kept
    ensures Restrict(Restrict(entries, kept), rest) == Restrict(entries, rest)
  {
  }

  /** What the index loses is the store's own; the rest stays as it was. */
  ghost predicate OnlyOwnLost(was: map<string, string>, now: map<string, string>, kinds: set<string>) {
    && (forall id | id in now :: id in was && now[id] == was[id])
    && (forall id | id in was && was[id] !in kinds :: id in now)
  }

  lemma LoseOne(was: map<string, string>, now: map<string, string>, kinds: set<string>, id: string)
    requires OnlyOwnLost(was, now, kinds) && id in now && now[id] in kinds
    ensures OnlyOwnLost(was, now - {id}, kinds)
  {
  }

  /** The first random identifier that is not in use. */
  function FirstFree(entries: map<string, Preview>, random: seq<Option<string>>): Result<string, StoreError> {
    if random == [] then Err(NoUniqueID)
    else
      match random[0]
      case None => Err(RandomFailed)
      case Some(id) => if id !in entries then Ok(id) else FirstFree(entries, random[1..])
  }

  class Store {
    const kinds: set<string>
    const maxEntries: int
    const maxBytes: int
    const ttl: int
    const index: OwnerIndex
    var entries: map<string, Preview>
    var order: seq<string>
    var totalBytes: int
    ghost var history: seq<Event>

    constructor (kinds: set<string>, maxEntries: int, maxBytes: int, ttl: int, index: OwnerIndex)
      requires forall id | id in index.owners :: index.owners[id] !in kinds
      requires [] !in kinds
      ensures Valid() && history == []
      ensures this.kinds == kinds && this.maxEntries == maxEntries && this.maxBytes == maxBytes && this.ttl == ttl
      ensures this.index == index
    {
      this.kinds, this.maxEntries, this.maxBytes, this.ttl, this.index := kinds, maxEntries, maxBytes, ttl, index;
      entries, order, totalBytes, history := map[], [], 0, [];
    }

    ghost predicate Valid()
      reads this, index
    {
      && [] !in kinds
      && Holds(history, entries, order, totalBytes) && Agrees(index.owners, entries, kinds)
      && |entries| <= (if maxEntries <= 0 then 0 else maxEntries)
      && totalBytes <= (if maxBytes <= 0 then 0 else maxBytes)
    }

    /** The parts of validity that hold in the middle of an operation. */
    ghost predicate Consistent()
      reads this, index
    {
      [] !in kinds && Holds(history, entries, order, totalBytes) && Agrees(index.owners, entries, kinds)
    }

    /** Take a live preview out. The byte counter never has to be clamped. */
    method Remove(event: Event)
      requires Consistent() && !event.Put? && Possible(Live(entries, order), event)
      modifies this, index`owners
      ensures Consistent() && history == old(history) + [event]
      ensures entries == old(entries) - {event.id} && order == Without(old(order), event.id)
      ensures totalBytes == old(totalBytes) - old(entries)[event.id].retainedBytes
      ensures index.owners == old(index.owners) - {event.id}
    {
      RemovedHolds(history, entries, order, totalBytes, event);
      RemovedAgrees(index.owners, entries, kinds, event.id);
      hide Holds, Agrees;
      var preview := entries[event.id];
      entries := entries - {event.id};
      var _ := index.Forget(event.id, preview.kind);
      order := Without(order, event.id);
      totalBytes := if totalBytes - preview.retainedBytes < 0 then 0 else totalBytes - preview.retainedBytes;
      history := history + [event];
    }

    /** Everything that has expired, in one walk over the list. */
    method PurgeExpired(now: int)
      requires Consistent()
      modifies this, index`owners
      ensures Consistent() && order == Unexpired(old(entries), old(order), now) && entries == Restrict(old(entries), order)
      ensures history == old(history) + DropAll(ExpiredOnes(old(entries), old(order), now))
      ensures OnlyOwnLost(old(index.owners), index.owners, kinds) && totalBytes <= old(totalBytes)
      ensures Left(old(entries), entries, now, {})
    {
      ghost var was, list, seen, gone := entries, order, 0, [];
      var i := 0;
      HoldsMeans(history, entries, order, totalBytes);
      PurgingStarts(entries, order, now);
      DropNothing(history);
      hide Holds, Agrees, Purging, DropAll, OnlyOwnLost, Unexpired, ExpiredOnes, Restrict, Bytes, Left;
      while i < |order|
        invariant Purging(was, list, now, seen, i, entries, order, gone) && seen <= |list|
        invariant Consistent() && history == old(history) + DropAll(gone)
        invariant OnlyOwnLost(old(index.owners), index.owners, kinds) && totalBytes <= old(totalBytes)
        decreases |list| - seen
      {
        var id := order[i];
        OwnListed(history, entries, order, totalBytes, index.owners, kinds, id);
        PurgingNext(was, list, now, seen, i, entries, order, gone);
        if entries[id].expiresAt <= now {
          LoseOne(old(index.owners), index.owners, kinds, id);
          DropOneMore(gone, id, old(history));
          Remove(Dropped(id));
          gone := gone + [id];
        } else {
          i := i + 1;
        }
        seen := seen + 1;
      }
      PurgingEnds(was, list, now, seen, i, entries, order, gone);
      Survivors(was, list, now);
    }

    /** The oldest go until there is room. The list never runs empty before there is. */
    method MakeRoom(retained: int) returns (ghost evicted: nat)
      requires Consistent() && 0 < maxEntries && 0 <= retained <= maxBytes
      modifies this, index`owners
      ensures Consistent()
      ensures forall id | id in old(order) :: id in old(entries)
      ensures ShortestPrefix(old(entries), old(order), evicted, maxEntries, maxBytes, retained)
      ensures order == old(order)[evicted..] && entries == Restrict(old(entries), order)
      ensures history == old(history) + DropAll(old(order)[..evicted])
      ensures |entries| < maxEntries && totalBytes <= maxBytes - retained
      ensures OnlyOwnLost(old(index.owners), index.owners, kinds) && totalBytes <= old(totalBytes)
    {
      ghost var was, list := entries, order;
      evicted := 0;
      HoldsMeans(history, entries, order, totalBytes);
      EvictingStarts(was, list, maxEntries, maxBytes, retained);
      DropNothing(history);
      hide Holds, Agrees, Evicting, DropAll, OnlyOwnLost, Restrict, Bytes, ShortestPrefix, Live.Sound;
      while |entries| >= maxEntries || totalBytes > maxBytes - retained
        invariant Evicting(was, list, maxEntries, maxBytes, retained, evicted, entries, order)
        invariant evicted <= |list| && Consistent() && history == old(history) + DropAll(list[..evicted])
        invariant OnlyOwnLost(old(index.owners), index.owners, kinds) && totalBytes <= old(totalBytes)
        decreases |list| - evicted
      {
        HoldsMeans(history, entries, order, totalBytes);
        NotEmptyYet(entries, order);
        if |order| == 0 {
          break;
        }
        var oldest := order[0];
        OwnListed(history, entries, order, totalBytes, index.owners, kinds, oldest);
        EvictingNext(was, list, maxEntries, maxBytes, retained, evicted, entries, order);
        LoseOne(old(index.owners), index.owners, kinds, oldest);
        DropOneMore(list[..evicted], oldest, old(history));
        Remove(Dropped(oldest));
        evicted := evicted + 1;
      }
      HoldsMeans(history, entries, order, totalBytes);
      NotEmptyYet(entries, order);
      EvictingEnds(was, list, maxEntries, maxBytes, retained, evicted, entries, order);
    }

    /** Up to four random identifiers. */
    method NewID(random: seq<Option<string>>) returns (id: Result<string, StoreError>)
      ensures id == FirstFree(entries, random)
    {
      assert random[0..] == random;
      for k := 0 to |random|
        invariant FirstFree(entries, random) == FirstFree(entries, random[k..])
      {
        assert random[k..][1..] == random[k + 1..];
        if random[k].None? {
          return Err(RandomFailed);
        }
        if random[k].value !in entries {
          return Ok(random[k].value);
        }
      }
      id := Err(NoUniqueID);
    }

    /** Expiry first, then eviction. */
    method MakeSpace(retained: nat, now: int) returns (ghost kept: seq<string>, ghost evicted: nat)
      requires Consistent() && 0 < maxEntries && retained <= maxBytes
      modifies this, index`owners
      ensures Consistent() && OnlyOwnLost(old(index.owners), index.owners, kinds)
      ensures Freed(old(entries), old(order), now, kept, evicted, maxEntries, maxBytes, retained)
      ensures order == kept[evicted..] && entries == Restrict(old(entries), order)
      ensures history == old(history) + FreedEvents(old(entries), old(order), now, kept, evicted)
      ensures |entries| < maxEntries && totalBytes <= maxBytes - retained
    {
      UnexpiredListed(history, entries, order, totalBytes, now);
      hide Holds, Agrees, DropAll, Restrict, Bytes, ShortestPrefix, Unexpired, ExpiredOnes, Live.Sound, OnlyOwnLost,
           Freed, FreedEvents;
      ghost var was, list, owners, events := entries, order, index.owners, history;
      PurgeExpired(now);
      kept := order;
      ghost var purged, between := entries, index.owners;
      evicted := MakeRoom(retained);
      FreedSoFar(was, list, now, purged, kept, evicted, maxEntries, maxBytes, retained, events);
      LoseTwice(owners, between, index.owners, kinds);
    }

    /** A new identifier and its reservation. */
    method ReserveNew(kind: string, random: seq<Option<string>>) returns (id: Result<string, StoreError>)
      requires kind != [] && forall k | 0 <= k < |random| && random[k].Some? :: ValidOwnerID(random[k].value)
      modifies index`owners
      ensures match id
        case Ok(i) =>
          FirstFree(entries, random) == Ok(i) && ValidOwnerID(i) && i !in old(index.owners) && index.owners == old(index.owners)[i := kind]
        case Err(error) =>
          index.owners == old(index.owners) && Refused(error, FirstFree(entries, random), index.owners, index.maxEntries)
    {
      FirstFreeValid(entries, random);
      hide ValidOwnerID, FirstFree;
      id := NewID(random);
      if id.Err? {
        return;
      }
      var refused := index.Reserve(id.value, kind);
      if refused.Some? {
        assert refused.value.Collision? || refused.value.LimitReached?;
        return Err(NotRouted(refused.value));
      }
    }

    /** A new identifier, its reservation, then the entry. */
    method Publish(preview: Preview, random: seq<Option<string>>) returns (result: Result<string, StoreError>)
      requires Consistent() && preview.kind in kinds
      requires forall k | 0 <= k < |random| && random[k].Some? :: ValidOwnerID(random[k].value)
      modifies this, index`owners
      ensures Consistent()
      ensures match result
        case Ok(id) =>
          && FirstFree(old(entries), random) == Ok(id) && ValidOwnerID(id) && id !in old(index.owners)
          && order == old(order) + [id] && entries == old(entries)[id := preview]
          && totalBytes == old(totalBytes) + preview.retainedBytes
          && history == old(history) + [PreviewHistory.Put(id, preview)]
          && index.owners == old(index.owners)[id := preview.kind]
        case Err(error) =>
          && unchanged(this) && unchanged(index)
          && Refused(error, FirstFree(entries, random), index.owners, index.maxEntries)
    {
      hide Holds, Agrees, ValidOwnerID, FirstFree, Refused;
      ghost var owners := index.owners;
      result := ReserveNew(preview.kind, random);
      if result.Err? {
        return;
      }
      var id := result.value;
      AddedAgrees(owners, entries, kinds, id, preview);
      AddedHolds(history, entries, order, totalBytes, id, preview);
      order := order + [id];
      entries := entries[id := preview];
      totalBytes := totalBytes + preview.retainedBytes;
      history := history + [PreviewHistory.Put(id, preview)];
    }

    /** The request itself is refused, before anything is looked at. */
    ghost function RequestError(kind: string, retained: nat): Option<StoreError> {
      if maxEntries <= 0 || maxBytes <= 0 || ttl <= 0 || kind !in kinds then Some(InvalidInput)
      else if retained > maxBytes then Some(PlanTooLarge)
      else None
    }

    /** Store a prepared operation under a new identifier. */
    method Put(kind: string, payload: string, retained: nat, random: seq<Option<string>>, now: int)
      returns (result: Result<string, StoreError>, ghost kept: seq<string>, ghost evicted: nat)
      requires Valid()
      requires |random| == 4 && forall k | 0 <= k < |random| && random[k].Some? :: ValidOwnerID(random[k].value)
      modifies this, index`owners
      ensures Valid() && OwnersOfOthers(old(index.owners), index.owners, kinds)
      ensures RequestError(kind, retained).Some? ==>
                result == Err(RequestError(kind, retained).value) && unchanged(this) && unchanged(index)
      ensures RequestError(kind, retained).None? ==>
                && Freed(old(entries), old(order), now, kept, evicted, maxEntries, maxBytes, retained)
                && var rest, left := kept[evicted..], Restrict(old(entries), kept[evicted..]);
                   var freed := old(history) + FreedEvents(old(entries), old(order), now, kept, evicted);
                   match result
                   case Ok(id) =>
                     var preview := Preview(kind, payload, retained, now + ttl);
                     && FirstFree(left, random) == Ok(id)
                     && order == rest + [id] && entries == left[id := preview]
                     && history == freed + [PreviewHistory.Put(id, preview)]
                   case Err(error) =>
                     && order == rest && entries == left && history == freed
                     && Refused(error, FirstFree(left, random), index.owners, index.maxEntries)
      ensures result.Ok? ==>
                && ValidOwnerID(result.value) && result.value in entries && entries[result.value] == Preview(kind, payload, retained, now + ttl)
      ensures RequestError(kind, retained).None? ==>
                AllStay(old(entries), entries, now, if result.Ok? then {result.value} else {})
    {
      hide Holds, Agrees, Freed, FreedEvents, Restrict, FirstFree, OwnersOfOthers, OnlyOwnLost, AllStay, RequestError,
           ValidOwnerID, Refused;
      RequestErrorIs(kind, retained);
      SameOwners(index.owners, kinds);
      if maxEntries <= 0 || maxBytes <= 0 || ttl <= 0 || kind !in kinds {
        return Err(InvalidInput), [], 0;
      }
      if retained > maxBytes {
        return Err(PlanTooLarge), [], 0;
      }
      ghost var owners, was, list := index.owners, entries, order;
      HoldsMeans(history, entries, order, totalBytes);
      kept, evicted := MakeSpace(retained, now);
      ghost var between, left := index.owners, entries;
      HoldsMeans(history, entries, order, totalBytes);
      FreedLeftStays(was, list, now, kept, evicted, maxEntries, maxBytes, retained);
      result := Publish(Preview(kind, payload, retained, now + ttl), random);
      OthersKept(owners, between, index.owners, kinds, kind);
      if result.Ok? {
        OneMoreStays(was, left, now, result.value, Preview(kind, payload, retained, now + ttl));
      }
    }

    lemma RequestErrorIs(kind: string, retained: nat)
      ensures RequestError(kind, retained) == Some(InvalidInput) <==> maxEntries <= 0 || maxBytes <= 0 || ttl <= 0 || kind !in kinds
      ensures RequestError(kind, retained) == Some(PlanTooLarge) <==>
                0 < maxEntries && 0 < maxBytes < retained && 0 < ttl && kind in kinds
      ensures RequestError(kind, retained) in {None, Some(InvalidInput), Some(PlanTooLarge)}
    {
    }

    /** Hand out a live preview, once. Expired ones go first, and a preview of another kind stays. */
    method Claim(id: string, expectedKind: string, now: int) returns (result: Result<Preview, StoreError>)
      requires Valid()
      modifies this, index`owners
      ensures Valid() && OwnersOfOthers(old(index.owners), index.owners, kinds)
      ensures !ValidPreviewID(id) ==> result == Err(InvalidInput) && unchanged(this) && unchanged(index)
      ensures ValidPreviewID(id) ==>
                var rest := Unexpired(old(entries), old(order), now);
                var purged := old(history) + DropAll(ExpiredOnes(old(entries), old(order), now));
                if id in rest && id in old(entries) && old(entries)[id].kind == expectedKind
                then && result == Ok(old(entries)[id]) && order == Without(rest, id)
                     && entries == Restrict(old(entries), rest) - {id}
                     && history == purged + [Claimed(id, old(entries)[id])]
                else && result == Err(if id in rest then WrongKind else Unavailable) && order == rest
                     && entries == Restrict(old(entries), rest) && history == purged
      ensures IsAnswer(old(entries), id, expectedKind, now, result)
      ensures ValidPreviewID(id) ==> Left(old(entries), entries, now, if result.Ok? then {id} else {})
    {
      hide Holds, Agrees, Restrict, OwnersOfOthers, OnlyOwnLost, DropAll, Unexpired, ExpiredOnes, ValidPreviewID, Left,
           IsAnswer;
      SameOwners(index.owners, kinds);
      AnswerIs(entries, id, expectedKind, now);
      if !ValidPreviewID(id) {
        return Err(InvalidInput);
      }
      ghost var owners, was := index.owners, entries;
      HoldsMeans(history, entries, order, totalBytes);
      PurgeExpired(now);
      LeftMeans(was, entries, now, id);
      ghost var between := index.owners;
      HoldsMeans(history, entries, order, totalBytes);
      LostIsOwn(owners, between, kinds);
      RestrictKeeps(was, order, id);
      FewerEntries(was, order);
      if id !in entries {
        return Err(Unavailable);
      }
      var preview := entries[id];
      OwnListed(history, entries, order, totalBytes, index.owners, kinds, id);
      if preview.kind != expectedKind {
        return Err(WrongKind);
      }
      LoseOne(owners, between, kinds, id);
      LostIsOwn(owners, between - {id}, kinds);
      FewerWithout(entries, id);
      LeftWithout(was, entries, now, id);
      Remove(Claimed(id, preview));
      return Ok(preview);
    }

    /** Give a preview up. */
    method Discard(id: string)
      requires Valid()
      modifies this, index`owners
      ensures Valid() && OwnersOfOthers(old(index.owners), index.owners, kinds)
      ensures if id in old(entries)
              then entries == old(entries) - {id} && order == Without(old(order), id) && history == old(history) + [Dropped(id)]
              else unchanged(this) && unchanged(index)
    {
      hide Holds, Agrees, OwnersOfOthers, OnlyOwnLost;
      SameOwners(index.owners, kinds);
      if id !in entries {
        return;
      }
      HoldsMeans(history, entries, order, totalBytes);
      OwnListed(history, entries, order, totalBytes, index.owners, kinds, id);
      LoseNone(index.owners, kinds);
      LoseOne(index.owners, index.owners, kinds, id);
      LostIsOwn(index.owners, index.owners - {id}, kinds);
      FewerWithout(entries, id);
      Remove(Dropped(id));
    }
  }

  lemma FreedLeftStays(was: map<string, Preview>, list: seq<string>, now: int, kept: seq<string>, evicted: nat,
                       maxEntries: int, maxBytes: int, retained: int)
    requires Freed(was, list, now, kept, evicted, maxEntries, maxBytes, retained) && Live(was, list).Sound()
    ensures evicted <= |kept| && AllStay(was, Restrict(was, kept[evicted..]), now, {})
  {
    LeftStay(was, list, now, kept, evicted);
  }

  // ----- what an operation frees and refuses

  /** The unexpired previews, and the shortest run of the oldest of them that makes room. */
  ghost predicate Freed(was: map<string, Preview>, list: seq<string>, now: int, kept: seq<string>, evicted: nat,
                        maxEntries: int, maxBytes: int, retained: int) {
    && kept == Unexpired(was, list, now) && evicted <= |kept| && (forall id | id in kept :: id in was)
    && ShortestPrefix(was, kept, evicted, maxEntries, maxBytes, retained)
  }

  ghost function FreedEvents(was: map<string, Preview>, list: seq<string>, now: int, kept: seq<string>,
                             evicted: nat): seq<Event>
    requires evicted <= |kept|
  {
    DropAll(ExpiredOnes(was, list, now)) + DropAll(kept[..evicted])
  }

  lemma FreedSoFar(was: map<string, Preview>, list: seq<string>, now: int, purged: map<string, Preview>,
                   kept: seq<string>,
                   evicted: nat, maxEntries: int, maxBytes: int, retained: int, events: seq<Event>)
    requires forall id | id in kept :: id in was
    requires kept == Unexpired(was, list, now) && purged == Restrict(was, kept) && forall id | id in kept :: id in purged
    requires ShortestPrefix(purged, kept, evicted, maxEntries, maxBytes, retained)
    ensures Freed(was, list, now, kept, evicted, maxEntries, maxBytes, retained) && evicted <= |kept|
    ensures Restrict(purged, kept[evicted..]) == Restrict(was, kept[evicted..])
    ensures events + DropAll(ExpiredOnes(was, list, now)) + DropAll(kept[..evicted])
         == events + FreedEvents(was, list, now, kept, evicted)
  {
    RoomAfterPurge(was, purged, kept, evicted, maxEntries, maxBytes, retained);
    assert events + DropAll(ExpiredOnes(was, list, now)) + DropAll(kept[..evicted])
        == events + (DropAll(ExpiredOnes(was, list, now)) + DropAll(kept[..evicted]));
  }

  /** Why a well-formed request is not stored. */
  ghost predicate Refused(error: StoreError, id: Result<string, StoreError>, owners: map<string, string>,
                          maxOwners: int) {
    match id
    case Err(e) => error == e
    case Ok(i) =>
      if i in owners then error == NotRouted(Collision) else |owners| >= maxOwners && error == NotRouted(LimitReached)
  }

  /** What belongs to other kinds is not touched. */
  ghost predicate OwnersOfOthers(was: map<string, string>, now: map<string, string>, kinds: set<string>) {
    && (forall id | id in was && was[id] !in kinds :: id in now && now[id] == was[id])
    && (forall id | id in now && now[id] !in kinds :: id in was && was[id] == now[id])
  }

  lemma SameOwners(owners: map<string, string>, kinds: set<string>)
    ensures OwnersOfOthers(owners, owners, kinds)
  {
  }

  lemma LoseNone(owners: map<string, string>, kinds: set<string>)
    ensures OnlyOwnLost(owners, owners, kinds)
  {
  }

  lemma LostIsOwn(was: map<string, string>, now: map<string, string>, kinds: set<string>)
    requires OnlyOwnLost(was, now, kinds)
    ensures OwnersOfOthers(was, now, kinds)
  {
  }

  lemma LoseTwice(was: map<string, string>, between: map<string, string>, now: map<string, string>, kinds: set<string>)
    requires OnlyOwnLost(was, between, kinds) && OnlyOwnLost(between, now, kinds)
    ensures OnlyOwnLost(was, now, kinds)
  {
  }

  lemma OthersKept(was: map<string, string>, between: map<string, string>, now: map<string, string>,
                   kinds: set<string>, kind: string)
    requires OnlyOwnLost(was, between, kinds) && kind in kinds
    requires now == between || exists id :: id !in between && now == between[id := kind]
    ensures OwnersOfOthers(was, now, kinds)
  {
  }

  lemma RestrictKeeps(was: map<string, Preview>, order: seq<string>, id: string)
    ensures id in Restrict(was, order) <==> id in was && id in order
    ensures id in Restrict(was, order) ==> Restrict(was, order)[id] == was[id]
  {
  }

  lemma FewerEntries(was: map<string, Preview>, order: seq<string>)
    ensures |Restrict(was, order)| <= |was|
  {
    assert Restrict(was, order).Keys <= was.Keys;
    SubsetSize(Restrict(was, order).Keys, was.Keys);
  }

  lemma FewerWithout(entries: map<string, Preview>, id: string)
    ensures |entries - {id}| <= |entries|
  {
    SubsetSize((entries - {id}).Keys, entries.Keys);
  }

  // ----- evicting

  /** The `k` oldest of the list are gone, and there was no room before the last of them went. */
  ghost predicate Evicting(was: map<string, Preview>, list: seq<string>, maxEntries: int, maxBytes: int, retained: int,
                           k: nat, entries: map<string, Preview>, order: seq<string>) {
    && k <= |list| && order == list[k..] && entries == Restrict(was, order)
    && (forall id | id in list :: id in was)
    && StillTooFull(was, list, maxEntries, maxBytes, retained, k)
  }

  ghost predicate StillTooFull(was: map<string, Preview>, list: seq<string>, maxEntries: int, maxBytes: int,
                               retained: int, k: nat)
    requires k <= |list| && forall id | id in list :: id in was
  {
    k > 0 ==> StillTooFull(was, list, maxEntries, maxBytes, retained, k - 1)
              && !Room(was, list[k - 1..], maxEntries, maxBytes, retained)
  }

  lemma {:induction false} NoShorterPrefix(was: map<string, Preview>, list: seq<string>, maxEntries: int, maxBytes: int,
                                           retained: int, k: nat, j: nat)
    requires k <= |list| && forall id | id in list :: id in was
    requires StillTooFull(was, list, maxEntries, maxBytes, retained, k) && j < k
    ensures !Room(was, list[j..], maxEntries, maxBytes, retained)
  {
    if j < k - 1 {
      NoShorterPrefix(was, list, maxEntries, maxBytes, retained, k - 1, j);
    }
  }

  lemma EvictingStarts(was: map<string, Preview>, list: seq<string>, maxEntries: int, maxBytes: int, retained: int)
    requires Live(was, list).Sound()
    ensures Evicting(was, list, maxEntries, maxBytes, retained, 0, was, list)
    ensures list[..0] == []
  {
    RestrictAll(was, list);
  }

  lemma SameBytes(was: map<string, Preview>, order: seq<string>)
    requires forall id | id in order :: id in was
    ensures forall id | id in order :: id in Restrict(was, order)
    ensures Bytes(Restrict(was, order), order) == Bytes(was, order)
  {
    BytesElsewhere(was, Restrict(was, order), order);
  }

  /** An empty list is never too full. */
  lemma NotEmptyYet(entries: map<string, Preview>, order: seq<string>)
    requires Live(entries, order).Sound()
    ensures order == [] ==> |entries| == 0 && Bytes(entries, order) == 0
  {
    Live(entries, order).SoundSize();
  }

  lemma EvictingNext(was: map<string, Preview>, list: seq<string>, maxEntries: int, maxBytes: int, retained: int,
                     k: nat, entries: map<string, Preview>, order: seq<string>)
    requires Evicting(was, list, maxEntries, maxBytes, retained, k, entries, order) && order != []
    requires Live(entries, order).Sound()
    requires |entries| >= maxEntries || Bytes(entries, order) > maxBytes - retained
    ensures k < |list| && list[..k + 1] == list[..k] + [order[0]]
    ensures Evicting(was, list, maxEntries, maxBytes, retained, k + 1, entries - {order[0]}, Without(order, order[0]))
  {
    NoRoomYet(was, list, k, entries, order, maxEntries, maxBytes, retained);
    FirstOut(entries, order);
    hide Room, Restrict, Bytes, Live.Sound, Without;
    ListNext(list, k, order);
    RestrictedFurther(was, order, order[0]);
    assert k < |list|;
    assert StillTooFull(was, list, maxEntries, maxBytes, retained, k + 1);
  }

  lemma ListNext<T>(list: seq<T>, k: nat, order: seq<T>)
    requires k <= |list| && order == list[k..] && order != []
    ensures k < |list| && order[1..] == list[k + 1..] && list[..k + 1] == list[..k] + [order[0]]
  {
  }

  lemma FirstOut(entries: map<string, Preview>, order: seq<string>)
    requires Live(entries, order).Sound() && order != []
    ensures Without(order, order[0]) == order[1..]
  {
    WithoutAbsent(order[1..], order[0]);
  }

  lemma NoRoomYet(was: map<string, Preview>, list: seq<string>, k: nat, entries: map<string, Preview>,
                  order: seq<string>,
                  maxEntries: int, maxBytes: int, retained: int)
    requires k <= |list| && order == list[k..] && entries == Restrict(was, order) && Live(entries, order).Sound()
    requires forall id | id in list :: id in was
    requires |entries| >= maxEntries || Bytes(entries, order) > maxBytes - retained
    ensures !Room(was, list[k..], maxEntries, maxBytes, retained)
  {
    Live(entries, order).SoundSize();
    SameBytes(was, order);
  }

  lemma EvictingEnds(was: map<string, Preview>, list: seq<string>, maxEntries: int, maxBytes: int, retained: int,
                     k: nat, entries: map<string, Preview>, order: seq<string>)
    requires Evicting(was, list, maxEntries, maxBytes, retained, k, entries, order)
    requires Live(entries, order).Sound() && |entries| < maxEntries && Bytes(entries, order) <= maxBytes - retained
    ensures forall id | id in list :: id in was
    ensures ShortestPrefix(was, list, k, maxEntries, maxBytes, retained)
    ensures order == list[k..] && entries == Restrict(was, order)
  {
    Live(entries, order).SoundSize();
    SameBytes(was, order);
    forall j | 0 <= j < k ensures !Room(was, list[j..], maxEntries, maxBytes, retained) {
      NoShorterPrefix(was, list, maxEntries, maxBytes, retained, k, j);
    }
  }

  lemma UnexpiredListed(history: seq<Event>, entries: map<string, Preview>, order: seq<string>, totalBytes: int,
                        now: int)
    requires Holds(history, entries, order, totalBytes)
    ensures forall id | id in Unexpired(entries, order, now) :: id in entries
  {
  }

  lemma {:induction false} RoomElsewhere(was: map<string, Preview>, kept: seq<string>, j: nat,
                                         maxEntries: int, maxBytes: int, retained: int)
    requires j <= |kept| && forall id | id in kept :: id in was && id in Restrict(was, kept)
    ensures Room(was, kept[j..], maxEntries, maxBytes, retained)
        <==> Room(Restrict(was, kept), kept[j..], maxEntries, maxBytes, retained)
  {
    BytesElsewhere(was, Restrict(was, kept), kept[j..]);
  }

  lemma RoomAfterPurge(was: map<string, Preview>, purged: map<string, Preview>, kept: seq<string>, evicted: nat,
                       maxEntries: int, maxBytes: int, retained: int)
    requires forall id | id in kept :: id in was
    requires purged == Restrict(was, kept) && forall id | id in kept :: id in purged
    requires ShortestPrefix(purged, kept, evicted, maxEntries, maxBytes, retained)
    ensures evicted <= |kept| && ShortestPrefix(was, kept, evicted, maxEntries, maxBytes, retained)
    ensures Restrict(purged, kept[evicted..]) == Restrict(was, kept[evicted..])
  {
    forall j | 0 <= j <= evicted
      ensures Room(was, kept[j..], maxEntries, maxBytes, retained) <==> Room(purged, kept[j..], maxEntries, maxBytes, retained) {
      RoomElsewhere(was, kept, j, maxEntries, maxBytes, retained);
    }
    RestrictedTwice(was, kept, kept[evicted..]);
  }

  lemma {:induction false} FirstFreeValid(entries: map<string, Preview>, random: seq<Option<string>>)
    requires forall k | 0 <= k < |random| && random[k].Some? :: ValidOwnerID(random[k].value)
    ensures match FirstFree(entries, random)
      case Ok(id) => id !in entries && ValidOwnerID(id)
      case Err(error) => error in {RandomFailed, NoUniqueID}
  {
    hide ValidOwnerID;
    if random != [] {
      FirstFreeValid(entries, random[1..]);
    }
  }

  // ----- one walk over the list

  /** The walk is at position `seen` of the list it started with. */
  ghost predicate Purging(was: map<string, Preview>, list: seq<string>, now: int, seen: nat, i: nat,
                          entries: map<string, Preview>, order: seq<string>, gone: seq<string>) {
    && seen <= |list| && i == |Unexpired(was, list[..seen], now)|
    && order == Unexpired(was, list[..seen], now) + list[seen..] && entries == Restrict(was, order)
    && gone == ExpiredOnes(was, list[..seen], now)
  }

  lemma PurgingStarts(was: map<string, Preview>, list: seq<string>, now: int)
    requires Live(was, list).Sound()
    ensures Purging(was, list, now, 0, 0, was, list, [])
  {
    RestrictAll(was, list);
    assert list[..0] == [] && list[0..] == list;
  }

  lemma ListAt(kept: seq<string>, rest: seq<string>, order: seq<string>)
    requires order == kept + rest && |kept| < |order|
    requires forall i, j | 0 <= i < j < |order| :: order[i] != order[j]
    ensures rest != [] && rest[0] == order[|kept|] && order == kept + [rest[0]] + rest[1..]
    ensures Without(order, rest[0]) == kept + rest[1..]
  {
    assert rest == [rest[0]] + rest[1..];
    assert order == kept + [rest[0]] + rest[1..];
    WithoutMiddle(kept, rest[0], rest[1..]);
  }

  lemma PurgingNext(was: map<string, Preview>, list: seq<string>, now: int, seen: nat, i: nat,
                    entries: map<string, Preview>, order: seq<string>, gone: seq<string>)
    requires Purging(was, list, now, seen, i, entries, order, gone) && i < |order|
    requires forall i, j | 0 <= i < j < |order| :: order[i] != order[j]
    ensures seen < |list|
    ensures var id := order[i];
            if Expired(entries, id, now)
            then Purging(was, list, now, seen + 1, i, entries - {id}, Without(order, id), gone + [id])
            else Purging(was, list, now, seen + 1, i + 1, entries, order, gone)
  {
    hide Unexpired, ExpiredOnes, Restrict;
    var kept, id := Unexpired(was, list[..seen], now), order[i];
    ListAt(kept, list[seen..], order);
    ExpiryStep(was, list, now, seen);
    RestrictedFurther(was, order, id);
    StillExpired(was, order, id, now);
    assert kept + [id] + list[seen + 1..] == order;
  }

  lemma StillExpired(was: map<string, Preview>, order: seq<string>, id: string, now: int)
    requires id in order
    ensures Expired(Restrict(was, order), id, now) <==> Expired(was, id, now)
  {
  }

  lemma PurgingEnds(was: map<string, Preview>, list: seq<string>, now: int, seen: nat, i: nat,
                    entries: map<string, Preview>, order: seq<string>, gone: seq<string>)
    requires Purging(was, list, now, seen, i, entries, order, gone) && i >= |order|
    ensures order == Unexpired(was, list, now) && entries == Restrict(was, order) && gone == ExpiredOnes(was, list, now)
  {
    assert list[..seen] == list;
  }

  lemma HoldsMeans(history: seq<Event>, entries: map<string, Preview>, order: seq<string>, totalBytes: int)
    requires Holds(history, entries, order, totalBytes)
    ensures Live(entries, order).Sound() && |entries| == |order| && totalBytes == Bytes(entries, order)
  {
    Live(entries, order).SoundSize();
  }

  lemma OwnListed(history: seq<Event>, entries: map<string, Preview>, order: seq<string>, totalBytes: int,
                  owners: map<string, string>, kinds: set<string>, id: string)
    requires Holds(history, entries, order, totalBytes) && Agrees(owners, entries, kinds) && id in order
    ensures id in entries && id in owners && owners[id] in kinds
    ensures forall i, j | 0 <= i < j < |order| :: order[i] != order[j]
  {
  }

  // ----- the time a preview has

  /** What else can happen to a store. */
  datatype Use =
    | PutOne(now: int, kind: string, payload: string, retained: nat, random: seq<Option<string>>)
    | ClaimOne(now: int, id: string, kind: string)
    | DiscardOne(id: string)

  predicate Usable(use: Use) {
    use.PutOne? ==> |use.random| == 4 && forall k | 0 <= k < 4 && use.random[k].Some? :: ValidOwnerID(use.random[k].value)
  }

  /** What can end the life of a preview: a put, which may evict it, its own claim or discard, or the time. */
  predicate MayEnd(use: Use, id: string, expiresAt: int) {
    match use
    case PutOne(_, _, _, _, _) => true
    case ClaimOne(now, other, _) => other == id || now >= expiresAt
    case DiscardOne(other) => other == id
  }

  /** Use the store while a preview is live in it. */
  method UseBeside(store: Store, use: Use, id: string) returns (gone: bool)
    requires store.Valid() && Usable(use) && id in store.entries
    modifies store, store.index`owners
    ensures store.Valid()
    ensures if gone then MayEnd(use, id, old(store.entries)[id].expiresAt)
            else id in store.entries && store.entries[id] == old(store.entries)[id]
  {
    hide Store.Valid;
    match use {
      case PutOne(now, kind, payload, retained, random) =>
        var result, _, _ := store.Put(kind, payload, retained, random, now);
        store.RequestErrorIs(kind, retained);
        gone := result == Ok(id) || id !in store.entries;
      case ClaimOne(now, other, kind) =>
        var _ := store.Claim(other, kind, now);
        gone := id !in store.entries;
      case DiscardOne(other) =>
        store.Discard(other);
        gone := id !in store.entries;
    }
  }

  /** The life of a preview: put, then anything else, then claimed. While nothing ended it, it can be claimed
      before its time is over, as it was put, and not later. Only its own claim or discard, a put or the end of
      its time can end it. */
  method PutThenClaim(store: Store, kind: string, payload: string, retained: nat, random: seq<Option<string>>, put: int,
                      uses: seq<Use>, claim: int)
    returns (id: Result<string, StoreError>, ended: Option<nat>, claimed: Option<Result<Preview, StoreError>>)
    requires store.Valid() && Usable(PutOne(put, kind, payload, retained, random))
    requires forall k | 0 <= k < |uses| :: Usable(uses[k])
    modifies store, store.index`owners
    ensures store.Valid() && (claimed.Some? <==> id.Ok? && ended.None?)
    ensures ended.Some? ==> id.Ok? && ended.value < |uses| && MayEnd(uses[ended.value], id.value, put + store.ttl)
    ensures claimed.Some? ==>
              claimed.value == if claim < put + store.ttl then Ok(Preview(kind, payload, retained, put + store.ttl))
                               else Err(Unavailable)
  {
    hide Store.Valid, MayEnd, Usable;
    ended, claimed := None, None;
    UsableMeans(PutOne(put, kind, payload, retained, random));
    ghost var kept, evicted;
    id, kept, evicted := store.Put(kind, payload, retained, random, put);
    if id.Err? {
      return;
    }
    OwnerIDIsPreviewID(id.value);
    for k := 0 to |uses|
      invariant store.Valid() && id.value in store.entries
      invariant store.entries[id.value] == Preview(kind, payload, retained, put + store.ttl)
    {
      var gone := UseBeside(store, uses[k], id.value);
      if gone {
        ended := Some(k);
        return;
      }
    }
    var result := store.Claim(id.value, kind, claim);
    claimed := Some(result);
  }

  lemma UsableMeans(use: Use)
    requires Usable(use) && use.PutOne?
    ensures |use.random| == 4 && forall k | 0 <= k < |use.random| && use.random[k].Some? :: ValidOwnerID(use.random[k].value)
  {
  }

  lemma OwnerIDIsPreviewID(id: string)
    requires ValidOwnerID(id)
    ensures ValidPreviewID(id)
  {
  }
}
