/** The life of prepared previews, as a history of what happened to them: each is put once, and then
    claimed, dropped or still live.
 */
module PreviewHistory {
  import opened Basics

  /** A prepared operation waiting for its confirmation. `payload` is the prepared content. */
  datatype Preview = Preview(kind: string, payload: string, retainedBytes: nat, expiresAt: int)

  /** Dropping covers expiry, eviction and discarding. */
  datatype Event = Put(id: string, preview: Preview) | Claimed(id: string, preview: Preview) | Dropped(id: string)

  /** The live previews and their ids in insertion order. */
  datatype Live = Live(entries: map<string, Preview>, order: seq<string>) {

    function Removed(id: string): Live {
      Live(entries - {id}, Without(order, id))
    }

    function Added(id: string, preview: Preview): Live {
      Live(entries[id := preview], order + [id])
    }

    /** The order lists every entry, once. */
    ghost predicate Sound() {
      && (forall i, j | 0 <= i < j < |order| :: order[i] != order[j])
      && (forall id :: id in order <==> id in entries)
    }

    lemma RemovedSound(id: string)
      requires Sound()
      ensures Removed(id).Sound()
    {
      WithoutKeepsOrder(order, id);
    }

    lemma AddedSound(id: string, preview: Preview)
      requires Sound() && id !in entries
      ensures Added(id, preview).Sound()
    {
      var added := Added(id, preview);
      forall x ensures x in added.order <==> x in added.entries {
        assert x in added.order <==> x in order || x == id;
      }
    }

    lemma SoundSize()
      requires Sound()
      ensures |entries| == |order|
    {
      var keys := entries.Keys;
      DistinctSize(order);
      assert keys == Elements(order);
    }
  }

  /** The list with `id` taken out. */
  function Without(order: seq<string>, id: string): (rest: seq<string>)
    ensures forall x :: x in rest <==> x in order && x != id
  {
    if order == [] then []
    else if order[0] == id then Without(order[1..], id)
    else [order[0]] + Without(order[1..], id)
  }

  lemma {:induction false} WithoutKeepsOrder(order: seq<string>, id: string)
    requires forall i, j | 0 <= i < j < |order| :: order[i] != order[j]
    ensures forall i, j | 0 <= i < j < |Without(order, id)| :: Without(order, id)[i] != Without(order, id)[j]
  {
    if order != [] {
      WithoutKeepsOrder(order[1..], id);
      assert order[0] !in order[1..];
    }
  }

  // ----- histories

  const NOTHING := Live(map[], [])

  function After(live: Live, event: Event): Live {
    match event
    case Put(id, preview) => live.Added(id, preview)
    case Claimed(id, _) => live.Removed(id)
    case Dropped(id) => live.Removed(id)
  }

  /** What can happen: new ids are put, live previews are claimed as they are or dropped. */
  predicate Possible(live: Live, event: Event) {
    match event
    case Put(id, _) => id !in live.entries
    case Claimed(id, preview) => id in live.entries && live.entries[id] == preview
    case Dropped(id) => id in live.entries
  }

  function Replay(history: seq<Event>): Live {
    if history == [] then NOTHING else After(Replay(history[..|history| - 1]), history[|history| - 1])
  }

  ghost predicate Legal(history: seq<Event>) {
    history == []
    || (Legal(history[..|history| - 1]) && Possible(Replay(history[..|history| - 1]), history[|history| - 1]))
  }

  lemma NextEvent(history: seq<Event>, event: Event)
    requires Legal(history) && Possible(Replay(history), event)
    ensures Legal(history + [event]) && Replay(history + [event]) == After(Replay(history), event)
  {
    assert (history + [event])[..|history|] == history;
  }

  lemma {:induction false} LegalPrefix(history: seq<Event>, n: nat)
    requires Legal(history) && n <= |history|
    ensures Legal(history[..n])
  {
    if n < |history| {
      LegalPrefix(history[..|history| - 1], n);
      assert history[..|history| - 1][..n] == history[..n];
    } else {
      assert history[..n] == history;
    }
  }

  /** In every history the order lists the live ids, once each. */
  lemma {:induction false} ReplaySound(history: seq<Event>)
    requires Legal(history)
    ensures Replay(history).Sound()
  {
    if history != [] {
      var earlier := history[..|history| - 1];
      ReplaySound(earlier);
      hide Live.Sound, Legal;
      match history[|history| - 1] {
        case Put(id, preview) => Replay(earlier).AddedSound(id, preview);
        case Claimed(id, _) => Replay(earlier).RemovedSound(id);
        case Dropped(id) => Replay(earlier).RemovedSound(id);
      }
    }
  }

  // ----- one-shot conservation

  function Puts(history: seq<Event>, id: string): nat {
    if history == [] then 0
    else Puts(history[..|history| - 1], id) + var e := history[|history| - 1]; if e.Put? && e.id == id then 1 else 0
  }

  function Claims(history: seq<Event>, id: string): nat {
    if history == [] then 0
    else Claims(history[..|history| - 1], id) + var e := history[|history| - 1]; if e.Claimed? && e.id == id then 1 else 0
  }

  function Drops(history: seq<Event>, id: string): nat {
    if history == [] then 0
    else Drops(history[..|history| - 1], id) + var e := history[|history| - 1]; if e.Dropped? && e.id == id then 1 else 0
  }

  /** Every put is used up by one claim or one drop, or is still live. */
  lemma {:induction false} Conservation(history: seq<Event>, id: string)
    requires Legal(history)
    ensures Puts(history, id) == Claims(history, id) + Drops(history, id) + if id in Replay(history).entries then 1 else 0
  {
    if history != [] {
      Conservation(history[..|history| - 1], id);
    }
  }

  ghost predicate Untouched(history: seq<Event>, id: string, from: nat, to: nat)
    requires to <= |history|
  {
    forall k | from <= k < to :: history[k].id != id
  }

  /** A live preview is the one put last, and nothing has happened to it since. */
  lemma {:induction false} LiveWasPut(history: seq<Event>, id: string) returns (i: nat)
    requires Legal(history) && id in Replay(history).entries
    ensures i < |history| && history[i] == Put(id, Replay(history).entries[id]) && Untouched(history, id, i + 1, |history|)
  {
    var n := |history| - 1;
    if history[n].Put? && history[n].id == id {
      i := n;
    } else {
      i := LiveWasPut(history[..n], id);
      assert history[..n][i] == history[i];
      assert forall k | i + 1 <= k < n :: history[k] == history[..n][k];
    }
  }

  /** A claim returns exactly what was put, and it is the first and only thing that happens to it. */
  lemma ClaimReturnsWhatWasPut(history: seq<Event>, j: nat) returns (i: nat)
    requires Legal(history) && j < |history| && history[j].Claimed?
    ensures i < j && history[i] == Put(history[j].id, history[j].preview) && Untouched(history, history[j].id, i + 1, j)
  {
    LegalPrefix(history, j + 1);
    var upTo := history[..j + 1];
    assert upTo[..j] == history[..j] && upTo[j] == history[j];
    i := LiveWasPut(history[..j], history[j].id);
    assert forall k | 0 <= k < j :: history[..j][k] == history[k];
  }

  /** After a claim the id is gone: a second claim needs another put. */
  lemma ClaimedOnce(history: seq<Event>, j: nat, k: nat) returns (i: nat)
    requires Legal(history) && j < k < |history|
    requires history[j].Claimed? && history[k].Claimed? && history[j].id == history[k].id
    ensures j < i < k && history[i].Put? && history[i].id == history[k].id
  {
    i := ClaimReturnsWhatWasPut(history, k);
    assert i != j;
  }

  // ----- insertion order

  /** When a live id was put. */
  ghost function PutAt(history: seq<Event>, id: string): int {
    if history == [] then -1
    else
      var n := |history| - 1;
      if history[n].Put? && history[n].id == id then n else PutAt(history[..n], id)
  }

  lemma {:induction false} PutAtBound(history: seq<Event>, id: string)
    ensures PutAt(history, id) < |history|
  {
    if history != [] {
      PutAtBound(history[..|history| - 1], id);
    }
  }

  /** Every pair of `rest` is a pair of `order`. */
  lemma {:induction false} WithoutPairs(order: seq<string>, id: string, i: nat, j: nat) returns (a: nat, b: nat)
    requires i < j < |Without(order, id)|
    ensures a < b < |order| && order[a] == Without(order, id)[i] && order[b] == Without(order, id)[j]
  {
    if order[0] == id {
      a, b := WithoutPairs(order[1..], id, i, j);
      a, b := a + 1, b + 1;
    } else if i > 0 {
      a, b := WithoutPairs(order[1..], id, i - 1, j - 1);
      a, b := a + 1, b + 1;
    } else {
      assert Without(order, id)[j] in order[1..];
      a := 0;
      b :| 1 <= b < |order| && order[b] == Without(order, id)[j];
    }
  }

  /** The order is the order of the puts. */
  lemma {:induction false} OrderIsInsertionOrder(history: seq<Event>, i: nat, j: nat)
    requires Legal(history) && i < j < |Replay(history).order|
    ensures PutAt(history, Replay(history).order[i]) < PutAt(history, Replay(history).order[j])
  {
    var n := |history| - 1;
    var earlier, event, order := history[..n], history[n], Replay(history).order;
    ReplaySound(earlier);
    match event {
      case Put(id, preview) =>
        PutAtBound(earlier, order[i]);
        if j < |order| - 1 {
          OrderIsInsertionOrder(earlier, i, j);
        }
        assert order[i] in Replay(earlier).order;
        assert order[j] == id || order[j] in Replay(earlier).order;
      case Claimed(id, _) =>
        var a, b := WithoutPairs(Replay(earlier).order, id, i, j);
        OrderIsInsertionOrder(earlier, a, b);
      case Dropped(id) =>
        var a, b := WithoutPairs(Replay(earlier).order, id, i, j);
        OrderIsInsertionOrder(earlier, a, b);
    }
  }
}
