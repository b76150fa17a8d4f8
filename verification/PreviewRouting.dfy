/** The preview stores and their shared routing index as concurrent parts, each under its own lock:
    filetoolsserver/handler/confirmation_owner_index.go, edit_preview.go, confirm_verified_operation.go and
    handler.go. A store deletes an entry before the index forgets it, and the index reserves an identifier
    before the store publishes it, so other operations can come between.
 */
module PreviewRouting {
  import opened Basics
  import opened Wrappers
  import opened ConfirmationOwners

  // ----- what confirmations are routed to

  /** The kinds each store owns, in the order of the capacities. */
  const STORE_KINDS: seq<set<string>> := [
    {"edit_file"}, {"markdown"}, {"patch_package"}, {"backup_restore"}, {"backup_gc"},
    {"manage_bom", "convert_encoding"}, {"filesystem_package"}
  ]

  /** The store a confirmation goes to, by the owner it resolved. */
  function RouteOf(owner: string): Option<nat> {
    match owner
    case "edit_file" => Some(0)
    case "patch_package" => Some(2)
    case "filesystem_package" => Some(6)
    case "markdown" => Some(1)
    case "convert_encoding" => Some(5)
    case "manage_bom" => Some(5)
    case "backup_restore" => Some(3)
    case "backup_gc" => Some(4)
    case _ => None
  }

  /** Every kind a store reserves is routed back to that store, and no other name is routed. */
  lemma RoutesFollowStores(owner: string, s: nat)
    requires s < |STORE_KINDS|
    ensures owner in STORE_KINDS[s] <==> RouteOf(owner) == Some(s)
  {
  }

  // ----- the parts

  /** What a store's lock holder is in the middle of. */
  datatype Phase = Unlocked | Locked | Forgetting(id: string, kind: string) | Publishing(id: string, kind: string)

  datatype Part = Part(entries: map<string, string>, phase: Phase) {

    /** The live ids, and the one that is in the index only. */
    function Mine(): set<string> {
      entries.Keys + if phase.Forgetting? || phase.Publishing? then {phase.id} else {}
    }

    /** The kind the index is to have for one of its ids. */
    function KindOf(id: string): string
      requires id in Mine()
    {
      if (phase.Forgetting? || phase.Publishing?) && id == phase.id then phase.kind else entries[id]
    }
  }

  /** A confirmation that has resolved an owner and not claimed yet. */
  datatype Confirmation = Confirmation(id: string, kind: string)

  datatype Claim = Claim(resolvedKind: string, claimedKind: string)

  datatype World = World(parts: seq<Part>, owners: map<string, string>, confirmations: map<nat, Confirmation>,
                         claims: seq<Claim>, limitErrors: nat)

  datatype Spec = Spec(kinds: set<string>, maxEntries: int, checksKind: bool)

  datatype Step =
    | Lock(s: nat)
    | Unlock(s: nat)
    | Delete(s: nat, id: string)
    | Forget(s: nat)
    | Reserve(s: nat, id: string, kind: string)
    | Publish(s: nat)
    | Resolve(task: nat, id: string)
    | ClaimResolved(s: nat, task: nat)

  datatype Config = Config(specs: seq<Spec>, maxOwners: int) {

    /** Stores do not share kinds; a store that does not check the kind of a claim has only one. */
    ghost predicate WellFormed() {
      && (forall i, j | 0 <= i < j < |specs| :: specs[i].kinds !! specs[j].kinds)
      && (forall i | 0 <= i < |specs| && !specs[i].checksKind :: |specs[i].kinds| == 1)
      && maxOwners == Capacity(|specs|)
    }

    function Cap(s: nat): nat
      requires s < |specs|
    {
      if specs[s].maxEntries <= 0 then 0 else specs[s].maxEntries
    }

    function Capacity(n: nat): nat
      requires n <= |specs|
    {
      if n == 0 then 0 else Capacity(n - 1) + Cap(n - 1)
    }

    function Initial(): World {
      World(seq(|specs|, _ => Part(map[], Unlocked)), map[], map[], [], 0)
    }

    /** When a step can be taken. The lock holder of a store takes its steps one after another; the index
        is locked only within a step. */
    predicate Enabled(w: World, step: Step)
      requires |w.parts| == |specs|
    {
      match step
      case Lock(s) => s < |specs| && w.parts[s].phase == Unlocked
      case Unlock(s) => s < |specs| && w.parts[s].phase == Locked
      case Delete(s, id) => s < |specs| && w.parts[s].phase == Locked && id in w.parts[s].entries
      case Forget(s) => s < |specs| && w.parts[s].phase.Forgetting?
      case Reserve(s, id, kind) =>
        && s < |specs| && w.parts[s].phase == Locked && id !in w.parts[s].entries
        && kind in specs[s].kinds && |w.parts[s].entries| < specs[s].maxEntries
      case Publish(s) => s < |specs| && w.parts[s].phase.Publishing?
      case Resolve(task, id) => id in w.owners
      case ClaimResolved(s, task) =>
        && s < |specs| && task in w.confirmations && w.confirmations[task].kind in specs[s].kinds
        && w.parts[s].phase == Locked && w.confirmations[task].id in w.parts[s].entries
        && (specs[s].checksKind ==> w.parts[s].entries[w.confirmations[task].id] == w.confirmations[task].kind)
    }

    function Next(w: World, step: Step): World
      requires |w.parts| == |specs| && Enabled(w, step)
    {
      match step
      case Lock(s) => w.(parts := w.parts[s := w.parts[s].(phase := Locked)])
      case Unlock(s) => w.(parts := w.parts[s := w.parts[s].(phase := Unlocked)])
      case Delete(s, id) => w.(parts := w.parts[s := Deleted(w.parts[s], id)])
      case Forget(s) =>
        var id, kind := w.parts[s].phase.id, w.parts[s].phase.kind;
        w.(parts := w.parts[s := w.parts[s].(phase := Locked)],
           owners := if id in w.owners && w.owners[id] == kind then w.owners - {id} else w.owners)
      case Reserve(s, id, kind) =>
        if id in w.owners then w
        else if |w.owners| >= maxOwners then w.(limitErrors := w.limitErrors + 1)
        else w.(parts := w.parts[s := w.parts[s].(phase := Publishing(id, kind))], owners := w.owners[id := kind])
      case Publish(s) =>
        var p := w.parts[s];
        w.(parts := w.parts[s := Part(p.entries[p.phase.id := p.phase.kind], Locked)])
      case Resolve(task, id) => w.(confirmations := w.confirmations[task := Confirmation(id, w.owners[id])])
      case ClaimResolved(s, task) =>
        var c := w.confirmations[task];
        w.(parts := w.parts[s := Deleted(w.parts[s], c.id)],
           confirmations := w.confirmations - {task},
           claims := w.claims + [Claim(c.kind, w.parts[s].entries[c.id])])
    }

    /** The steps do to the index what its own operations do. */
    lemma StepsTheIndex(w: World, step: Step)
      requires |w.parts| == |specs| && Enabled(w, step)
      ensures step.Reserve? && step.kind != [] && ValidOwnerID(step.id) ==>
                Next(w, step).owners == ConfirmationOwners.Next(w.owners, Reservation(step.id, step.kind), maxOwners)
      ensures step.Forget? ==>
                var phase := w.parts[step.s].phase;
                Next(w, step).owners == ConfirmationOwners.Next(w.owners, Withdrawal(phase.id, phase.kind), maxOwners)
      ensures !step.Reserve? && !step.Forget? ==> Next(w, step).owners == w.owners
    {
      hide ValidOwnerID;
    }

    /** The entry is gone; the index still has its id. */
    function Deleted(p: Part, id: string): Part
      requires id in p.entries
    {
      Part(p.entries - {id}, Forgetting(id, p.entries[id]))
    }

    // ----- the invariant

    /** The index has for a store exactly its ids and the one in flight. */
    ghost predicate Agrees(s: nat, p: Part, owners: map<string, string>)
      requires s < |specs|
    {
      && (forall id | id in p.Mine() :: id in owners && owners[id] == p.KindOf(id) && p.KindOf(id) in specs[s].kinds)
      && (forall id | id in owners && owners[id] in specs[s].kinds :: id in p.Mine())
      && ((p.phase.Forgetting? || p.phase.Publishing?) ==> p.phase.id !in p.entries)
      && |p.Mine()| <= Cap(s)
    }

    ghost predicate Owned(owners: map<string, string>, n: nat)
      requires n <= |specs|
    {
      forall id | id in owners :: exists s :: 0 <= s < n && owners[id] in specs[s].kinds
    }

    ghost predicate Inv(w: World) {
      && |w.parts| == |specs|
      && (forall s | 0 <= s < |specs| :: Agrees(s, w.parts[s], w.owners))
      && Owned(w.owners, |specs|)
      && (forall k | 0 <= k < |w.claims| :: w.claims[k].resolvedKind == w.claims[k].claimedKind)
      && w.limitErrors == 0
    }

    lemma InitialInv()
      ensures Inv(Initial())
    {
    }

    // ----- counting

    /** The ids of the first `n` stores. */
    function Ids(w: World, n: nat): set<string>
      requires n <= |specs| == |w.parts|
    {
      if n == 0 then {} else Ids(w, n - 1) + w.parts[n - 1].Mine()
    }

    lemma {:induction false} IdsOf(w: World, n: nat, s: nat, id: string)
      requires s < n <= |specs| == |w.parts| && id in w.parts[s].Mine()
      ensures id in Ids(w, n)
    {
      if s < n - 1 {
        IdsOf(w, n - 1, s, id);
      }
    }

    lemma {:induction false} CountIds(w: World, n: nat)
      requires n <= |specs| == |w.parts| && forall s | 0 <= s < n :: |w.parts[s].Mine()| <= Cap(s)
      ensures |Ids(w, n)| <= Capacity(n)
    {
      hide Part.Mine, Cap;
      if n > 0 {
        CountIds(w, n - 1);
        UnionSize(Ids(w, n - 1), w.parts[n - 1].Mine());
      }
    }

    lemma {:induction false} CountIdsWithRoom(w: World, n: nat, s: nat)
      requires s < n <= |specs| == |w.parts| && forall s | 0 <= s < n :: |w.parts[s].Mine()| <= Cap(s)
      requires |w.parts[s].Mine()| < Cap(s)
      ensures |Ids(w, n)| < Capacity(n)
    {
      hide Part.Mine, Cap;
      UnionSize(Ids(w, n - 1), w.parts[n - 1].Mine());
      if s < n - 1 {
        CountIdsWithRoom(w, n - 1, s);
      } else {
        CountIds(w, n - 1);
      }
    }

    lemma UnionSize(a: set<string>, b: set<string>)
      ensures |a + b| <= |a| + |b|
    {
      assert a + b == a + (b - a) && a !! b - a;
      SubsetSize(b - a, b);
    }

    lemma AllCounted(w: World)
      requires Inv(w)
      ensures |w.owners| <= |Ids(w, |specs|)|
      ensures forall s | 0 <= s < |specs| :: |w.parts[s].Mine()| <= Cap(s)
    {
      forall id | id in w.owners ensures id in Ids(w, |specs|) {
        var s :| 0 <= s < |specs| && w.owners[id] in specs[s].kinds;
        assert Agrees(s, w.parts[s], w.owners);
        IdsOf(w, |specs|, s, id);
      }
      assert w.owners.Keys <= Ids(w, |specs|);
      SubsetSize(w.owners.Keys, Ids(w, |specs|));
      assert forall s | 0 <= s < |specs| :: Agrees(s, w.parts[s], w.owners);
    }

    /** The index never holds more than the stores admit, ... */
    lemma IndexBound(w: World)
      requires Inv(w)
      ensures |w.owners| <= Capacity(|specs|)
    {
      AllCounted(w);
      CountIds(w, |specs|);
    }

    /** ... and less while one of them has room. */
    lemma IndexHasRoom(w: World, s: nat)
      requires Inv(w) && s < |specs| && |w.parts[s].Mine()| < Cap(s)
      ensures |w.owners| < Capacity(|specs|)
    {
      AllCounted(w);
      CountIdsWithRoom(w, |specs|, s);
    }

    // ----- every step keeps the invariant

    lemma ReservedElsewhere(s: nat, t: nat, p: Part, owners: map<string, string>, id: string, kind: string)
      requires WellFormed() && s < |specs| && t < |specs| && s != t && kind in specs[s].kinds
      requires Agrees(t, p, owners) && id !in owners
      ensures Agrees(t, p, owners[id := kind])
    {
      DifferentKinds(s, t, kind);
    }

    lemma ForgottenElsewhere(s: nat, t: nat, p: Part, owners: map<string, string>, id: string)
      requires WellFormed() && s < |specs| && t < |specs| && s != t
      requires Agrees(t, p, owners) && id in owners && owners[id] in specs[s].kinds
      ensures Agrees(t, p, owners - {id})
    {
      DifferentKinds(s, t, owners[id]);
    }

    lemma DifferentKinds(s: nat, t: nat, kind: string)
      requires WellFormed() && s < |specs| && t < |specs| && s != t && kind in specs[s].kinds
      ensures kind !in specs[t].kinds
    {
      if s < t {
        assert specs[s].kinds !! specs[t].kinds;
      } else {
        assert specs[t].kinds !! specs[s].kinds;
      }
    }

    /** A step inside one store that leaves the index alone. */
    lemma PartStep(w: World, s: nat, p: Part)
      requires Inv(w) && s < |specs| && Agrees(s, p, w.owners)
      ensures Inv(w.(parts := w.parts[s := p]))
    {
      hide Agrees, Owned;
    }

    lemma LockStep(s: nat, p: Part, phase: Phase, owners: map<string, string>)
      requires s < |specs| && Agrees(s, p, owners) && p.phase in {Unlocked, Locked} && phase in {Unlocked, Locked}
      ensures Agrees(s, p.(phase := phase), owners)
    {
      assert p.(phase := phase).Mine() == p.Mine();
    }

    lemma DeleteStep(s: nat, p: Part, id: string, owners: map<string, string>)
      requires s < |specs| && Agrees(s, p, owners) && p.phase == Locked && id in p.entries
      ensures Agrees(s, Deleted(p, id), owners) && p.entries[id] in specs[s].kinds
    {
      assert Deleted(p, id).Mine() == p.Mine();
      assert id in p.Mine();
    }

    lemma PublishStep(s: nat, p: Part, owners: map<string, string>)
      requires s < |specs| && Agrees(s, p, owners) && p.phase.Publishing?
      ensures Agrees(s, Part(p.entries[p.phase.id := p.phase.kind], Locked), owners)
    {
      assert Part(p.entries[p.phase.id := p.phase.kind], Locked).Mine() == p.Mine();
    }

    lemma ForgetStep(s: nat, p: Part, owners: map<string, string>)
      requires s < |specs| && Agrees(s, p, owners) && p.phase.Forgetting?
      ensures var id := p.phase.id;
              && id in owners && owners[id] == p.phase.kind && p.phase.kind in specs[s].kinds
              && Agrees(s, p.(phase := Locked), owners - {id})
    {
      var q := p.(phase := Locked);
      assert p.phase.id in p.Mine() && q.Mine() == p.Mine() - {p.phase.id};
      SubsetSize(q.Mine(), p.Mine());
    }

    lemma ReserveStep(s: nat, p: Part, id: string, kind: string, owners: map<string, string>)
      requires s < |specs| && Agrees(s, p, owners) && p.phase == Locked
      requires id !in p.entries && id !in owners && kind in specs[s].kinds && |p.entries| < specs[s].maxEntries
      ensures |p.Mine()| < Cap(s)
      ensures Agrees(s, p.(phase := Publishing(id, kind)), owners[id := kind])
    {
      var q := p.(phase := Publishing(id, kind));
      assert p.Mine() == p.entries.Keys && q.Mine() == p.entries.Keys + {id};
    }

    lemma IndexStep(w: World, s: nat, p: Part, owners: map<string, string>)
      requires Inv(w) && s < |specs| && Agrees(s, p, owners) && Owned(owners, |specs|)
      requires forall t | 0 <= t < |specs| && t != s :: Agrees(t, w.parts[t], owners)
      ensures Inv(w.(parts := w.parts[s := p], owners := owners))
    {
      hide Agrees, Owned;
    }

    lemma OwnedWith(owners: map<string, string>, s: nat, id: string, kind: string)
      requires Owned(owners, |specs|) && s < |specs| && kind in specs[s].kinds
      ensures Owned(owners[id := kind], |specs|)
    {
    }

    lemma OwnedWithout(owners: map<string, string>, id: string)
      requires Owned(owners, |specs|)
      ensures Owned(owners - {id}, |specs|)
    {
    }

    lemma NextReserve(w: World, s: nat, id: string, kind: string)
      requires WellFormed() && Inv(w) && Enabled(w, Reserve(s, id, kind))
      ensures Inv(Next(w, Reserve(s, id, kind)))
    {
      if id !in w.owners {
        assert Agrees(s, w.parts[s], w.owners);
        OwnedWith(w.owners, s, id, kind);
        hide Agrees, Owned, Part.Mine;
        ReserveStep(s, w.parts[s], id, kind, w.owners);
        IndexHasRoom(w, s);
        forall t | 0 <= t < |specs| && t != s ensures Agrees(t, w.parts[t], w.owners[id := kind]) {
          ReservedElsewhere(s, t, w.parts[t], w.owners, id, kind);
        }
        IndexStep(w, s, w.parts[s].(phase := Publishing(id, kind)), w.owners[id := kind]);
      }
    }

    lemma NextForget(w: World, s: nat)
      requires WellFormed() && Inv(w) && Enabled(w, Forget(s))
      ensures Inv(Next(w, Forget(s)))
    {
      var id := w.parts[s].phase.id;
      OwnedWithout(w.owners, id);
      hide Owned;
      ForgetStep(s, w.parts[s], w.owners);
      forall t | 0 <= t < |specs| && t != s ensures Agrees(t, w.parts[t], w.owners - {id}) {
        ForgottenElsewhere(s, t, w.parts[t], w.owners, id);
      }
      IndexStep(w, s, w.parts[s].(phase := Locked), w.owners - {id});
    }

    /** A confirmation claims a preview of the kind it resolved: either the store looks, or it has one kind. */
    lemma ClaimedKind(w: World, s: nat, task: nat)
      requires WellFormed() && Inv(w) && Enabled(w, ClaimResolved(s, task))
      ensures w.parts[s].entries[w.confirmations[task].id] == w.confirmations[task].kind
    {
      var c := w.confirmations[task];
      assert Agrees(s, w.parts[s], w.owners);
      DeleteStep(s, w.parts[s], c.id, w.owners);
      if !specs[s].checksKind {
        OnlyOne(specs[s].kinds, c.kind, w.parts[s].entries[c.id]);
      }
    }

    lemma OnlyOne(kinds: set<string>, a: string, b: string)
      requires |kinds| == 1 && a in kinds && b in kinds
      ensures a == b
    {
      assert a != b ==> |{a, b}| == 2;
      SubsetSize({a, b}, kinds);
    }

    lemma NextInPart(w: World, step: Step)
      requires Inv(w) && Enabled(w, step) && (step.Lock? || step.Unlock? || step.Delete? || step.Publish?)
      ensures Inv(Next(w, step))
    {
      var s := step.s;
      var p := w.parts[s];
      assert Agrees(s, p, w.owners);
      hide Agrees, Inv;
      match step {
        case Lock(_) =>
          LockStep(s, p, Locked, w.owners);
          PartStep(w, s, p.(phase := Locked));
        case Unlock(_) =>
          LockStep(s, p, Unlocked, w.owners);
          PartStep(w, s, p.(phase := Unlocked));
        case Delete(_, id) =>
          DeleteStep(s, p, id, w.owners);
          PartStep(w, s, Deleted(p, id));
        case Publish(_) =>
          PublishStep(s, p, w.owners);
          PartStep(w, s, Part(p.entries[p.phase.id := p.phase.kind], Locked));
      }
    }

    lemma ClaimRecorded(w: World, confirmations: map<nat, Confirmation>, kind: string)
      requires Inv(w)
      ensures Inv(w.(confirmations := confirmations, claims := w.claims + [Claim(kind, kind)]))
    {
      hide Agrees, Owned;
    }

    lemma NextClaim(w: World, s: nat, task: nat)
      requires WellFormed() && Inv(w) && Enabled(w, ClaimResolved(s, task))
      ensures Inv(Next(w, ClaimResolved(s, task)))
    {
      var c := w.confirmations[task];
      ClaimedKind(w, s, task);
      assert Agrees(s, w.parts[s], w.owners);
      hide Agrees, Inv, WellFormed;
      DeleteStep(s, w.parts[s], c.id, w.owners);
      PartStep(w, s, Deleted(w.parts[s], c.id));
      ClaimRecorded(w.(parts := w.parts[s := Deleted(w.parts[s], c.id)]), w.confirmations - {task}, c.kind);
    }

    lemma StepKeepsInv(w: World, step: Step)
      requires WellFormed() && Inv(w) && Enabled(w, step)
      ensures Inv(Next(w, step))
    {
      match step {
        case Forget(s) => NextForget(w, s);
        case Reserve(s, id, kind) => NextReserve(w, s, id, kind);
        case Resolve(task, id) => hide Agrees, Owned;
        case ClaimResolved(s, task) => NextClaim(w, s, task);
        case _ => NextInPart(w, step);
      }
    }

    // ----- whole runs

    /** A run: any steps, in any order in which they are enabled. */
    ghost predicate Run(worlds: seq<World>, steps: seq<Step>) {
      && |worlds| == |steps| + 1 && worlds[0] == Initial()
      && forall i | 0 <= i < |steps| ::
           |worlds[i].parts| == |specs| && Enabled(worlds[i], steps[i]) && worlds[i + 1] == Next(worlds[i], steps[i])
    }

    lemma {:induction false} RunKeepsInv(worlds: seq<World>, steps: seq<Step>, i: nat)
      requires WellFormed() && Run(worlds, steps) && i < |worlds|
      ensures Inv(worlds[i])
    {
      if i == 0 {
        InitialInv();
      } else {
        RunKeepsInv(worlds, steps, i - 1);
        hide Inv, Enabled, Next, WellFormed;
        StepKeepsInv(worlds[i - 1], steps[i - 1]);
      }
    }

    /** Whatever the interleaving: an unlocked store's live ids are the ids the index assigns to its kinds;
        the index stays within the stores' capacities and never refuses a reservation for its own limit; and
        every claim by a confirmation is of the kind it resolved. */
    lemma RunIsSafe(worlds: seq<World>, steps: seq<Step>, i: nat)
      requires WellFormed() && Run(worlds, steps) && i < |worlds|
      ensures var w := worlds[i];
              && |w.parts| == |specs|
              && (forall s, id | 0 <= s < |specs| && w.parts[s].phase == Unlocked ::
                    id in w.parts[s].entries <==> id in w.owners && w.owners[id] in specs[s].kinds)
              && (forall s, id | 0 <= s < |specs| && w.parts[s].phase == Unlocked && id in w.parts[s].entries ::
                    id in w.owners && w.owners[id] == w.parts[s].entries[id])
              && |w.owners| <= Capacity(|specs|) && w.limitErrors == 0
              && forall k | 0 <= k < |w.claims| :: w.claims[k].resolvedKind == w.claims[k].claimedKind
    {
      RunKeepsInv(worlds, steps, i);
      var w := worlds[i];
      IndexBound(w);
      forall s, id | 0 <= s < |specs| && w.parts[s].phase == Unlocked
        ensures id in w.parts[s].entries <==> id in w.owners && w.owners[id] in specs[s].kinds
        ensures id in w.parts[s].entries ==> id in w.owners && w.owners[id] == w.parts[s].entries[id] {
        assert Agrees(s, w.parts[s], w.owners);
        assert id in w.parts[s].Mine() <==> id in w.parts[s].entries;
      }
    }

    /** The limit the handler gives its index is the one the runs need, while the sum of the capacities is a
        machine integer. */
    lemma {:induction false} CapacityIsTheSum(capacities: seq<int>, n: nat)
      requires n <= |specs| == |capacities| && forall s | 0 <= s < |specs| :: capacities[s] == specs[s].maxEntries
      ensures Capacity(n) == SumPositive(capacities[..n])
    {
      if n > 0 {
        CapacityIsTheSum(capacities, n - 1);
        assert capacities[..n][..n - 1] == capacities[..n - 1];
      }
    }
  }

  // ----- the handler's own stores

  /** The seven stores with their capacities; only the byte-mutation store has two kinds, and it looks. */
  function HandlerSpecs(capacities: seq<int>): seq<Spec>
    requires |capacities| == |STORE_KINDS|
  {
    seq(|STORE_KINDS|, s requires 0 <= s < |STORE_KINDS| => Spec(STORE_KINDS[s], capacities[s], s == 5))
  }

  lemma KindsApart(i: nat, j: nat)
    requires i < j < |STORE_KINDS|
    ensures STORE_KINDS[i] !! STORE_KINDS[j]
  {
    forall owner | owner in STORE_KINDS[i] ensures owner !in STORE_KINDS[j] {
      RoutesFollowStores(owner, i);
      RoutesFollowStores(owner, j);
    }
  }

  /** The handler's configuration is one the runs are safe for, while the capacities' sum is a machine integer. */
  lemma HandlerIsWellFormed(capacities: seq<int>, maxOwners: int)
    requires |capacities| == |STORE_KINDS| && SumPositive(capacities) == maxOwners
    ensures Config(HandlerSpecs(capacities), maxOwners).WellFormed()
  {
    var config := Config(HandlerSpecs(capacities), maxOwners);
    forall i, j | 0 <= i < j < |config.specs| ensures config.specs[i].kinds !! config.specs[j].kinds {
      KindsApart(i, j);
    }
    config.CapacityIsTheSum(capacities, |capacities|);
    assert capacities[..|capacities|] == capacities;
  }
}
