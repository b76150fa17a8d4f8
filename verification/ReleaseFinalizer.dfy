/** The single writer that finishes a release, scripts/release-finalizer-write.js: create a draft, upload what
    is missing one asset at a time, publish when all 22 are there. Requests can be lost, take effect without a
    response, or store something else; and the writer can be started again after any of that.
 */
module ReleaseFinalizer {
  import opened Basics
  import opened Wrappers
  import opened ReleaseAssets

  /** A release as the service holds it. */
  datatype Remote = Remote(release: Release, title: string, body: string, prerelease: bool, assets: seq<RemoteAsset>)

  /** What the writer asked for, and the inventory it asked it on. `stored` is none when nothing came of it. */
  datatype Event =
    | CreateSent(existing: Option<Remote>)
    | UploadSent(name: string, before: seq<RemoteAsset>, stored: Option<RemoteAsset>)
    | PublishSent(before: seq<RemoteAsset>, published: bool)

  /** What one inspection sees. */
  datatype Observation = Nothing | Found(remote: Remote, authority: int)

  /** What the writer did, in order: look at the release, check something else, or send a request. */
  datatype Step = Looked(seen: Option<Observation>) | Checked(ok: bool) | Sent(event: Event, answered: bool)

  // ----- what must hold of everything sent

  ghost predicate SafeEvent(m: Manifest, event: Event) {
    match event
    case CreateSent(existing) => existing.None?
    case UploadSent(name, before, _) =>
      name in ExpectedNames(m.tag) && name !in RemoteNames(before) && Partial(Files(m.assets), before)
    case PublishSent(before, _) => Complete(Files(m.assets), before)
  }

  ghost predicate SafeLog(m: Manifest, log: seq<Event>) {
    forall k | 0 <= k < |log| :: SafeEvent(m, log[k])
  }

  /** An upload that left an inventory of exact files, or any other request. */
  ghost predicate LeavesExact(m: Manifest, event: Event) {
    event.UploadSent? && event.stored.Some? ==> Partial(Files(m.assets), event.before + [event.stored.value])
  }

  /** Only the last thing sent can have left something that is not staged, and then the inventory shows it. */
  ghost predicate ExactSoFar(m: Manifest, log: seq<Event>, remote: Option<Remote>) {
    && (forall k | 0 <= k < |log| - 1 :: LeavesExact(m, log[k]))
    && (InventoryIsExact(m, remote) <==> log == [] || LeavesExact(m, log[|log| - 1]))
  }

  /** The inventory is some of the staged files, digest by digest. */
  ghost predicate InventoryIsExact(m: Manifest, remote: Option<Remote>) {
    remote.Some? ==> Partial(Files(m.assets), remote.value.assets)
  }

  /** Names are never repeated, and a public release holds exactly the staged files. */
  ghost predicate SafeRemote(m: Manifest, remote: Option<Remote>) {
    match remote
    case None => true
    case Some(r) =>
      && (forall i, j | 0 <= i < j < |r.assets| :: r.assets[i].name != r.assets[j].name)
      && (!r.release.draft ==> Complete(Files(m.assets), r.assets))
  }

  /** A draft with these assets was seen. */
  ghost predicate DraftSeen(step: Step, assets: seq<RemoteAsset>) {
    && step.Looked? && step.seen.Some? && step.seen.value.Found?
    && step.seen.value.remote.release.draft && step.seen.value.remote.assets == assets
  }

  /** The last three steps: a look at a draft with these assets, a check of the local file, the same look. */
  ghost predicate UploadJustified(before: seq<Step>, assets: seq<RemoteAsset>) {
    var n := |before|;
    n >= 3 && before[n - 3] == before[n - 1] && before[n - 2] == Checked(true) && DraftSeen(before[n - 1], assets)
  }

  /** The last four steps: two equal looks at a draft with these assets between two checks of the policy. */
  ghost predicate PublishJustified(before: seq<Step>, assets: seq<RemoteAsset>) {
    var n := |before|;
    && n >= 4 && before[n - 4] == before[n - 1] == Checked(true) && before[n - 3] == before[n - 2]
    && DraftSeen(before[n - 2], assets)
  }

  /** Two looks that agree come right before every request: a release is created after two looks at nothing. */
  ghost predicate Justified(before: seq<Step>, event: Event) {
    match event
    case CreateSent(_) => |before| >= 2 && before[|before| - 2] == before[|before| - 1] == Looked(Some(Nothing))
    case UploadSent(_, assets, _) => UploadJustified(before, assets)
    case PublishSent(assets, _) => PublishJustified(before, assets)
  }

  lemma UploadFollows(h: seq<Step>, seen: Observation, again: Observation, r: Remote)
    requires seen.Found? && again.Found? && seen.remote == again.remote == r && seen.authority == again.authority
    requires r.release.draft
    ensures UploadJustified(h + [Looked(Some(seen))] + [Checked(true)] + [Looked(Some(again))], r.assets)
  {
  }

  lemma PublishFollows(h: seq<Step>, seen: Observation, again: Observation, r: Remote)
    requires seen.Found? && again.Found? && seen.remote == again.remote == r && seen.authority == again.authority
    requires r.release.draft
    ensures PublishJustified(h + [Checked(true)] + [Looked(Some(seen))] + [Looked(Some(again))] + [Checked(true)], r.assets)
  {
  }

  /** The requests among the steps. */
  ghost function Requests(history: seq<Step>): seq<Event> {
    if history == [] then []
    else
      var last := history[|history| - 1];
      Requests(history[..|history| - 1]) + if last.Sent? then [last.event] else []
  }

  /** The log is what was sent, and nothing was sent on less than it takes. */
  ghost predicate Prudent(history: seq<Step>, log: seq<Event>) {
    && log == Requests(history)
    && forall k | 0 <= k < |history| && history[k].Sent? :: Justified(history[..k], history[k].event)
  }

  lemma PrudentStep(history: seq<Step>, log: seq<Event>, step: Step)
    requires Prudent(history, log) && (step.Sent? ==> Justified(history, step.event))
    ensures Prudent(history + [step], log + if step.Sent? then [step.event] else [])
  {
    hide Justified;
    var more := history + [step];
    assert more[..|history|] == history;
    forall k | 0 <= k < |more| && more[k].Sent? ensures Justified(more[..k], more[k].event) {
      assert k < |history| ==> more[..k] == history[..k];
    }
  }

  /** Steps that add to others, where a request without a response is the last one sent. */
  ghost predicate StopsAtLoss(was: seq<Step>, now: seq<Step>) {
    && was <= now
    && forall i, j | |was| <= i < j < |now| && now[i].Sent? && now[j].Sent? :: now[i].answered
  }

  /** Steps that add to others, where every request was answered. */
  ghost predicate AllAnswered(was: seq<Step>, now: seq<Step>) {
    was <= now && forall k | |was| <= k < |now| && now[k].Sent? :: now[k].answered
  }

  /** One more step after steps that were all answered. */
  lemma StepAfter(was: seq<Step>, now: seq<Step>, step: Step)
    requires AllAnswered(was, now)
    ensures StopsAtLoss(was, now + [step])
    ensures (step.Sent? ==> step.answered) ==> AllAnswered(was, now + [step])
  {
    var more := now + [step];
    assert was <= more;
    assert forall k | 0 <= k < |now| :: more[k] == now[k];
  }

  lemma NoStepYet(history: seq<Step>)
    ensures AllAnswered(history, history) && StopsAtLoss(history, history)
  {
  }

  lemma AnsweredThen(a: seq<Step>, b: seq<Step>, c: seq<Step>)
    requires AllAnswered(a, b)
    ensures StopsAtLoss(b, c) ==> StopsAtLoss(a, c)
    ensures AllAnswered(b, c) ==> AllAnswered(a, c)
    ensures StopsAtLoss(a, b)
  {
  }

  function MadePublic(r: Remote): Remote {
    r.(release := r.release.(draft := false, immutable := true))
  }

  /** The service as it is, with everything that can go wrong left open. */
  class Service {
    /** Whether a request gets a usable response, whether a mutation takes effect, what an upload is stored
        as, what a response says, what the publication authority is, and when a local file has the size and
        digest of an asset: all arbitrary. */
    const delivers: nat -> bool
    const acts: nat -> bool
    const stores: (nat, seq<RemoteAsset>, RemoteAsset) -> RemoteAsset
    const answers: (nat, Option<RemoteAsset>) -> RemoteAsset
    const newId: nat -> int
    const authority: nat -> int
    const staged: (nat, Asset) -> bool
    var remote: Option<Remote>
    var clock: nat
    ghost var log: seq<Event>
    ghost var history: seq<Step>

    constructor (delivers: nat -> bool, acts: nat -> bool, stores: (nat, seq<RemoteAsset>, RemoteAsset) -> RemoteAsset,
                 answers: (nat, Option<RemoteAsset>) -> RemoteAsset, newId: nat -> int, authority: nat -> int,
                 staged: (nat, Asset) -> bool)
      ensures this.delivers == delivers && this.acts == acts && this.stores == stores && this.answers == answers
      ensures this.newId == newId && this.authority == authority && this.staged == staged
      ensures remote.None? && log == [] && history == [] && forall m :: Safe(m)
    {
      this.delivers, this.acts, this.stores, this.answers := delivers, acts, stores, answers;
      this.newId, this.authority, this.staged := newId, authority, staged;
      remote, clock, log, history := None, 0, [], [];
    }

    ghost predicate Safe(m: Manifest)
      reads this
    {
      SafeLog(m, log) && SafeRemote(m, remote) && ExactSoFar(m, log, remote) && Prudent(history, log)
    }

    /** Uploads to a draft that is not full and that take effect are stored as they were sent, under an id of
        their own. */
    ghost predicate Faithful() {
      forall t: nat, inventory: seq<RemoteAsset>, asset: RemoteAsset | |inventory| < 22 && asset.state == "uploaded" ::
        var s := stores(t, inventory, asset);
        && s.size == asset.size && s.digest == asset.digest && s.state == "uploaded"
        && 0 < s.id <= MAX_SAFE_INTEGER && forall k | 0 <= k < |inventory| :: inventory[k].id != s.id
    }

    /** Every request is answered, takes effect and is reported as it was stored. */
    ghost predicate Calm() {
      && (forall t: nat :: delivers(t)) && (forall t: nat :: acts(t)) && Faithful()
      && (forall t: nat :: authority(t) == authority(0)) && (forall t: nat :: 0 < newId(t) <= MAX_SAFE_INTEGER)
      && (forall t: nat, a: Asset :: staged(t, a))
      && forall t: nat, x: RemoteAsset :: answers(t, Some(x)) == x
    }

    /** The local file of a name was seen to be the staged asset. */
    ghost predicate SourceSeen(m: Manifest, name: string, from: nat, to: nat) {
      exists t: nat, a: Asset :: from < t <= to && a in m.assets && a.name == name && staged(t, a)
    }

    lemma SourceAt(m: Manifest, asset: Asset, from: nat, t: nat, to: nat)
      requires from < t <= to && asset in m.assets && staged(t, asset)
      ensures SourceSeen(m, asset.name, from, to)
    {
    }

    lemma LaterSource(m: Manifest, name: string, from: nat, to: nat)
      requires SourceSeen(m, name, from, to)
      ensures forall later | later >= to :: SourceSeen(m, name, from, later)
    {
    }

    ghost predicate ExactInventory(m: Manifest)
      reads this`remote
    {
      InventoryIsExact(m, remote)
    }

    ghost method Record(step: Step)
      requires !step.Sent?
      modifies this`history
      ensures history == old(history) + [step] && forall m :: old(Safe(m)) ==> Safe(m)
      ensures forall was :: AllAnswered(was, old(history)) ==> StopsAtLoss(was, history) && AllAnswered(was, history)
    {
      history := history + [step];
      if Prudent(old(history), log) {
        PrudentStep(old(history), log, step);
        assert log + [] == log;
      }
      forall was | AllAnswered(was, old(history)) ensures StopsAtLoss(was, history) && AllAnswered(was, history) {
        StepAfter(was, old(history), step);
      }
    }

    /** What is sent goes into the log. */
    ghost method Send(event: Event, answered: bool)
      modifies this`history, this`log
      ensures history == old(history) + [Sent(event, answered)] && log == old(log) + [event]
      ensures Prudent(old(history), old(log)) && Justified(old(history), event) ==> Prudent(history, log)
      ensures forall was :: AllAnswered(was, old(history)) ==>
                StopsAtLoss(was, history) && (answered ==> AllAnswered(was, history))
    {
      history, log := history + [Sent(event, answered)], log + [event];
      if Prudent(old(history), old(log)) && Justified(old(history), event) {
        PrudentStep(old(history), old(log), Sent(event, answered));
      }
      forall was | AllAnswered(was, old(history))
        ensures StopsAtLoss(was, history) && (answered ==> AllAnswered(was, history))
      {
        StepAfter(was, old(history), Sent(event, answered));
      }
    }

    /** Look at the release and the authority. Nothing changes. */
    method Inspect() returns (seen: Option<Observation>)
      modifies this`clock, this`history
      ensures clock == old(clock) + 1
      ensures history == old(history) + [Looked(seen)] && forall m :: old(Safe(m)) ==> Safe(m)
      ensures forall was :: AllAnswered(was, old(history)) ==> StopsAtLoss(was, history) && AllAnswered(was, history)
      ensures seen.Some? && seen.value.Found? ==> seen.value.authority == authority(clock)
      ensures seen.Some? ==> (seen.value.Nothing? <==> remote.None?)
      ensures seen.Some? && seen.value.Found? ==> Some(seen.value.remote) == remote
      ensures Calm() ==> seen.Some? && (seen.value.Found? ==> seen.value.authority == authority(0))
    {
      clock := clock + 1;
      seen := if delivers(clock)
        then Some(match remote case None => Nothing case Some(r) => Found(r, authority(clock)))
        else None;
      Record(Looked(seen));
    }

    /** Some other check, of a source file or a policy. */
    method Check() returns (ok: bool)
      modifies this`clock, this`history
      ensures clock == old(clock) + 1
      ensures history == old(history) + [Checked(ok)] && forall m :: old(Safe(m)) ==> Safe(m)
      ensures forall was :: AllAnswered(was, old(history)) ==> StopsAtLoss(was, history) && AllAnswered(was, history)
      ensures Calm() ==> ok
    {
      clock := clock + 1;
      ok := delivers(clock);
      Record(Checked(ok));
    }

    /** Hash the local file of an asset. */
    method CheckSource(asset: Asset) returns (ok: bool)
      modifies this`clock, this`history
      ensures clock == old(clock) + 1
      ensures history == old(history) + [Checked(ok)] && forall m :: old(Safe(m)) ==> Safe(m)
      ensures forall was :: AllAnswered(was, old(history)) ==> StopsAtLoss(was, history) && AllAnswered(was, history)
      ensures ok ==> staged(clock, asset)
      ensures Calm() ==> ok
    {
      clock := clock + 1;
      ok := delivers(clock) && staged(clock, asset);
      Record(Checked(ok));
    }

    method PostRelease(tag: string, body: string, prerelease: bool) returns (response: Option<int>)
      modifies this
      ensures log == old(log) + [CreateSent(old(remote))]
      ensures history == old(history) + [Sent(CreateSent(old(remote)), response.Some?)]
      ensures Prudent(old(history), old(log)) && Justified(old(history), CreateSent(old(remote))) ==> Prudent(history, log)
      ensures forall was :: AllAnswered(was, old(history)) ==>
                StopsAtLoss(was, history) && (response.Some? ==> AllAnswered(was, history))
      ensures remote == old(remote)
              || exists id :: remote == Some(Remote(Release(id, tag, true, false), tag, body, prerelease, []))
      ensures Calm() ==> response.Some? && 0 < response.value <= MAX_SAFE_INTEGER
                         && remote == Some(Remote(Release(response.value, tag, true, false), tag, body, prerelease, []))
    {
      clock := clock + 1;
      Send(CreateSent(remote), delivers(clock));
      if acts(clock) {
        remote := Some(Remote(Release(newId(clock), tag, true, false), tag, body, prerelease, []));
      }
      response := if delivers(clock) then Some(newId(clock)) else None;
    }

    /** The response need not be about what was stored. */
    method PostAsset(asset: RemoteAsset) returns (response: Option<RemoteAsset>, ghost stored: Option<RemoteAsset>)
      requires remote.Some?
      modifies this
      ensures clock == old(clock) + 1
      ensures forall was :: AllAnswered(was, old(history)) ==>
                StopsAtLoss(was, history) && (response.Some? ==> AllAnswered(was, history))
      ensures stored.Some? ==> stored.value == stores(clock, old(remote).value.assets, asset).(name := asset.name)
      ensures log == old(log) + [UploadSent(asset.name, old(remote).value.assets, stored)]
      ensures history == old(history) + [Sent(UploadSent(asset.name, old(remote).value.assets, stored), response.Some?)]
      ensures Prudent(old(history), old(log)) && Justified(old(history), log[|old(log)|]) ==> Prudent(history, log)
      ensures remote == Some(old(remote).value.(assets :=
                          old(remote).value.assets + if stored.Some? then [stored.value] else []))
      ensures Calm() ==> stored.Some? && response == stored
    {
      clock := clock + 1;
      var r := remote.value;
      var kept := if acts(clock) then Some(stores(clock, r.assets, asset).(name := asset.name)) else None;
      stored := kept;
      Send(UploadSent(asset.name, r.assets, stored), delivers(clock));
      remote := Some(r.(assets := r.assets + if kept.Some? then [kept.value] else []));
      response := if delivers(clock) then Some(answers(clock, kept)) else None;
    }

    method PatchPublic() returns (response: bool, ghost published: bool)
      requires remote.Some?
      modifies this
      ensures forall was :: AllAnswered(was, old(history)) ==>
                StopsAtLoss(was, history) && (response ==> AllAnswered(was, history))
      ensures log == old(log) + [PublishSent(old(remote).value.assets, published)]
      ensures history == old(history) + [Sent(PublishSent(old(remote).value.assets, published), response)]
      ensures Prudent(old(history), old(log)) && Justified(old(history), log[|old(log)|]) ==> Prudent(history, log)
      ensures remote == Some(if published then MadePublic(old(remote).value) else old(remote).value)
      ensures Calm() ==> published && response
    {
      clock := clock + 1;
      var r := remote.value;
      published := acts(clock);
      Send(PublishSent(r.assets, published), delivers(clock));
      if acts(clock) {
        remote := Some(MadePublic(r));
      }
      response := delivers(clock);
    }
  }

  // ----- the writer

  /** What a draft says, as far as the writer compares it. */
  datatype Selected = Selected(release: Release, plan: Plan, authority: int)

  ghost predicate MetadataMatches(r: Remote, m: Manifest, notes: string) {
    r.title == m.tag && r.body == notes && (r.prerelease <==> '-' in m.tag)
  }

  /** The title, the notes and the prerelease mark are those of the manifest. */
  method VerifyMetadata(r: Remote, m: Manifest, notes: string) returns (ok: bool)
    ensures ok <==> MetadataMatches(r, m, notes)
    ensures ok <==> r.title == m.tag && r.body == notes && (r.prerelease <==> '-' in m.tag)
  {
    if r.title != m.tag || r.body != notes {
      return false;
    }
    ok := r.prerelease == ('-' in m.tag);
  }

  /** A draft of the manifest that can be resumed. */
  ghost predicate Selectable(m: Manifest, notes: string, remote: Option<Remote>) {
    && remote.Some? && MetadataMatches(remote.value, m, notes)
    && Resumable(m, remote.value.release, remote.value.assets)
  }

  method SelectedDraft(seen: Option<Observation>, m: Manifest, notes: string) returns (draft: Option<Selected>)
    ensures draft.Some? <==> seen.Some? && seen.value.Found? && Selectable(m, notes, Some(seen.value.remote))
    ensures draft.Some? ==>
              draft.value == Selected(seen.value.remote.release, PlanOf(m, seen.value.remote.release, seen.value.remote.assets),
                                         seen.value.authority)
  {
    if seen.None? || seen.value.Nothing? {
      return None;
    }
    var r := seen.value.remote;
    var described := VerifyMetadata(r, m, notes);
    if !r.release.draft || r.release.immutable || !described {
      return None;
    }
    var plan := PlanDraftAssetResume(m, r.release, r.assets);
    if plan.None? {
      return None;
    }
    return Some(Selected(r.release, plan.value, seen.value.authority));
  }

  function Missing(m: Manifest, remote: Remote): seq<string> {
    Unlisted(ExpectedNames(m.tag), RemoteNames(remote.assets))
  }

  datatype Outcome =
    | DraftComplete(releaseId: int)
    | Uploaded(releaseId: int, remaining: nat)
    | Halted
    | NoProgress
    | Exceeded

  /** One more name present is one fewer missing. */
  lemma {:induction false} OneFewer(names: seq<string>, have: set<string>, name: string)
    requires forall i, j | 0 <= i < j < |names| :: names[i] != names[j]
    ensures |Unlisted(names, have + {name})|
         == |Unlisted(names, have)| - if name in names && name !in have then 1 else 0
  {
    if names != [] {
      OneFewer(names[..|names| - 1], have, name);
    }
  }

  /** What sending the first missing asset may leave behind. */
  lemma SentIsSafe(m: Manifest, notes: string, log: seq<Event>, remote: Option<Remote>, name: string,
                   stored: Option<RemoteAsset>)
    requires SafeLog(m, log) && SafeRemote(m, remote) && Selectable(m, notes, remote)
    requires name in Missing(m, remote.value) && (stored.Some? ==> stored.value.name == name)
    ensures SafeLog(m, log + [UploadSent(name, remote.value.assets, stored)])
    ensures SafeRemote(m, Some(remote.value.(assets := remote.value.assets + if stored.Some? then [stored.value] else [])))
  {
    hide ExpectedNames, Files, Partial, ValidManifest;
    if stored.Some? {
      NotRepeated(remote.value.assets, stored.value);
    } else {
      assert remote.value.assets + [] == remote.value.assets;
    }
  }

  /** One more request, sent on an exact inventory. */
  lemma ExactStep(m: Manifest, log: seq<Event>, before: Option<Remote>, event: Event, now: Option<Remote>)
    requires ExactSoFar(m, log, before) && InventoryIsExact(m, before)
    requires InventoryIsExact(m, now) <==> LeavesExact(m, event)
    ensures ExactSoFar(m, log + [event], now)
  {
    hide LeavesExact, InventoryIsExact;
    var more := log + [event];
    forall k | 0 <= k < |more| - 1 ensures LeavesExact(m, more[k]) {
      assert more[k] == log[k];
    }
  }

  lemma SentIsExactSoFar(m: Manifest, notes: string, log: seq<Event>, remote: Option<Remote>, name: string,
                         stored: Option<RemoteAsset>)
    requires ExactSoFar(m, log, remote) && Selectable(m, notes, remote)
    ensures ExactSoFar(m, log + [UploadSent(name, remote.value.assets, stored)],
                       Some(remote.value.(assets := remote.value.assets + if stored.Some? then [stored.value] else [])))
  {
    hide ExactSoFar, Partial, Files, ValidManifest;
    var event := UploadSent(name, remote.value.assets, stored);
    var now := remote.value.(assets := remote.value.assets + if stored.Some? then [stored.value] else []);
    assert stored.None? ==> now.assets == remote.value.assets;
    ExactStep(m, log, remote, event, Some(now));
  }

  lemma NotRepeated(assets: seq<RemoteAsset>, asset: RemoteAsset)
    requires asset.name !in RemoteNames(assets) && forall i, j | 0 <= i < j < |assets| :: assets[i].name != assets[j].name
    ensures forall i, j | 0 <= i < j < |assets| + 1 :: (assets + [asset])[i].name != (assets + [asset])[j].name
  {
    assert forall k | 0 <= k < |assets| :: assets[k].name in RemoteNames(assets);
  }

  /** After an upload that is seen in the inventory one fewer is missing. */
  lemma Progressed(m: Manifest, before: Remote, name: string, stored: Option<RemoteAsset>)
    requires name in Missing(m, before) && (stored.Some? ==> stored.value.name == name)
    ensures var now := before.(assets := before.assets + if stored.Some? then [stored.value] else []);
            && (stored.Some? ==> |Missing(m, now)| == |Missing(m, before)| - 1)
            && (stored.None? ==> name !in RemoteNames(now.assets))
  {
    TwentyTwoNames(m.tag);
    hide ExpectedNames;
    if stored.Some? {
      NamesOneMore(before.assets, stored.value);
      OneFewer(ExpectedNames(m.tag), RemoteNames(before.assets), name);
    } else {
      assert before.assets + [] == before.assets;
    }
  }

  lemma {:induction false} ListedMeans(names: seq<string>, ids: map<string, int>, name: string, id: int)
    ensures Present(name, id) in Listed(names, ids) <==> name in names && name in ids && ids[name] == id
  {
    if names != [] {
      ListedMeans(names[..|names| - 1], ids, name, id);
    }
  }

  /** The staged bytes of a name. */
  method FindAsset(m: Manifest, name: string) returns (asset: Option<Asset>)
    ensures asset.Some? ==> asset.value in m.assets && asset.value.name == name
    ensures asset.None? ==> forall k | 0 <= k < |m.assets| :: m.assets[k].name != name
  {
    for k := 0 to |m.assets|
      invariant forall j | 0 <= j < k :: m.assets[j].name != name
    {
      if m.assets[k].name == name {
        return Some(m.assets[k]);
      }
    }
    return None;
  }

  /** A faithfully stored upload of a missing name keeps the inventory exact. */
  lemma StoredIsExact(gh: Service, m: Manifest, notes: string, before: Option<Remote>, asset: Asset, sent: RemoteAsset,
                      stored: Option<RemoteAsset>)
    requires Selectable(m, notes, before) && asset in m.assets && asset.name in Missing(m, before.value)
    requires sent == RemoteAsset(0, asset.name, asset.size, "sha256:" + asset.sha256, "uploaded")
    requires stored.Some? ==> exists t :: stored.value == gh.stores(t, before.value.assets, sent).(name := sent.name)
    ensures gh.Faithful() ==>
              var now := before.value.(assets := before.value.assets + if stored.Some? then [stored.value] else []);
              && Partial(Files(m.assets), now.assets) && Selectable(m, notes, Some(now))
              && (stored.Some? ==> stored.value.(id := 0) == sent && 0 < stored.value.id <= MAX_SAFE_INTEGER
                                   && Present(sent.name, stored.value.id) in Listed(ExpectedNames(m.tag), Ids(now.assets)))
  {
    hide ExpectedNames, Files, Ids, Listed, Unlisted, Exact, ValidManifest;
    if gh.Faithful() {
      if stored.Some? {
        RoomForMissing(m, before.value, sent.name);
        FaithfullyStored(gh, before.value.assets, sent, stored.value);
        SentIsExact(m, asset, sent, stored.value);
        hide Service.Faithful;
        PartialWith(Files(m.assets), before.value.assets, stored.value);
        IdsWith(before.value.assets, stored.value);
        ListedMeans(ExpectedNames(m.tag), Ids(before.value.assets + [stored.value]), sent.name, stored.value.id);
      } else {
        assert before.value.assets + [] == before.value.assets;
      }
    }
  }

  /** A draft that misses a name is not full. */
  lemma RoomForMissing(m: Manifest, remote: Remote, name: string)
    requires ValidManifest(m) && Partial(Files(m.assets), remote.assets) && name in Missing(m, remote)
    ensures |remote.assets| < 22
  {
    hide ExpectedNames, Files, Partial, ValidManifest;
    TwentyTwoFiles(m);
    CompleteHasAll(Files(m.assets), remote.assets);
    assert name in Elements(ExpectedNames(m.tag)) && name !in RemoteNames(remote.assets);
  }

  lemma FaithfullyStored(gh: Service, inventory: seq<RemoteAsset>, sent: RemoteAsset, stored: RemoteAsset)
    requires gh.Faithful() && sent.id == 0 && sent.state == "uploaded" && |inventory| < 22
    requires exists t :: stored == gh.stores(t, inventory, sent).(name := sent.name)
    ensures stored.(id := 0) == sent && 0 < stored.id <= MAX_SAFE_INTEGER
    ensures forall k | 0 <= k < |inventory| :: inventory[k].id != stored.id
  {
  }

  lemma SentIsExact(m: Manifest, asset: Asset, sent: RemoteAsset, stored: RemoteAsset)
    requires ValidManifest(m) && asset in m.assets && stored.(id := 0) == sent && 0 < stored.id <= MAX_SAFE_INTEGER
    requires sent == RemoteAsset(0, asset.name, asset.size, "sha256:" + asset.sha256, "uploaded")
    ensures Exact(Files(m.assets), stored)
  {
    hide ExpectedNames, Files;
    var k :| 0 <= k < |m.assets| && m.assets[k] == asset;
    FilesAt(m.assets, k);
  }

  lemma IdsWith(assets: seq<RemoteAsset>, asset: RemoteAsset)
    ensures Ids(assets + [asset]) == Ids(assets)[asset.name := asset.id]
  {
    assert (assets + [asset])[..|assets|] == assets;
  }

  /** A missing name has staged bytes. */
  lemma MissingIsStaged(m: Manifest, remote: Remote, name: string)
    requires ValidManifest(m) && name in Missing(m, remote)
    ensures exists k :: 0 <= k < |m.assets| && m.assets[k].name == name
  {
    TwentyTwoFiles(m);
    assert name in ExpectedNames(m.tag);
    hide ExpectedNames;
    assert name in Files(m.assets).Keys;
    var k :| 0 <= k < |m.assets| && m.assets[k] == Files(m.assets)[name] && m.assets[k].name == name;
  }

  lemma PartialWith(files: map<string, Asset>, assets: seq<RemoteAsset>, asset: RemoteAsset)
    requires Partial(files, assets) && Exact(files, asset) && asset.name !in RemoteNames(assets)
    requires forall k | 0 <= k < |assets| :: assets[k].id != asset.id
    ensures Partial(files, assets + [asset])
  {
    hide Exact;
    assert forall k | 0 <= k < |assets| :: assets[k].name in RemoteNames(assets);
    var more := assets + [asset];
    assert forall k | 0 <= k < |assets| :: more[k] == assets[k];
  }

  /** The first missing asset of a draft, which is looked at again after its staged bytes were checked. */
  method ChooseAsset(gh: Service, m: Manifest, notes: string) returns (first: Option<Selected>, asset: Option<Asset>)
    modifies gh`clock, gh`history
    ensures gh.clock >= old(gh.clock)
    ensures AllAnswered(old(gh.history), gh.history) && (old(gh.Safe(m)) ==> gh.Safe(m))
    ensures asset.Some? ==> gh.remote.Some? && UploadJustified(gh.history, gh.remote.value.assets)
    ensures first.Some? ==>
              && Selectable(m, notes, gh.remote) && gh.remote.Some? && first.value.release == gh.remote.value.release
              && first.value.plan == PlanOf(m, gh.remote.value.release, gh.remote.value.assets)
    ensures asset.Some? ==> gh.history != [] && gh.clock == old(gh.clock) + 3
    ensures asset.Some? ==>
              && first.Some? && asset.value in m.assets && asset.value.name in Missing(m, gh.remote.value)
              && gh.SourceSeen(m, asset.value.name, old(gh.clock), gh.clock)
              && gh.history[|gh.history| - 1] == Looked(Some(Found(gh.remote.value, first.value.authority)))
    ensures gh.Calm() && Selectable(m, notes, gh.remote) ==>
              first.Some? && first.value.authority == gh.authority(0) && (first.value.plan.missing != [] ==> asset.Some?)
  {
    hide *;
    NoStepYet(gh.history);
    SelectableMeans(m, notes, gh.remote);
    asset := None;
    var seen := gh.Inspect();
    first := SelectedDraft(seen, m, notes);
    if first.None? || |first.value.plan.missing| == 0 {
      return;
    }
    var name := first.value.plan.missing[0];
    ValidWhenSelectable(m, notes, gh.remote);
    MissingIsStaged(m, gh.remote.value, name);
    var staged := FindAsset(m, name);
    if staged.None? {
      return;
    }
    var trusted := gh.CheckSource(staged.value);
    if !trusted {
      return;
    }
    var seenAgain := gh.Inspect();
    var second := SelectedDraft(seenAgain, m, notes);
    if second != first {
      return;
    }
    gh.SourceAt(m, staged.value, old(gh.clock), old(gh.clock) + 2, gh.clock);
    SelectableIsDraft(m, notes, gh.remote);
    UploadFollows(old(gh.history), seen.value, seenAgain.value, gh.remote.value);
    asset := staged;
  }

  /** The last four steps: a look, the upload, a check of the local file, and a look at the release as it is,
      under the same authority. */
  ghost predicate UploadConfirmed(h: seq<Step>, remote: Option<Remote>) {
    var n := |h|;
    && n >= 4 && h[n - 3].Sent? && h[n - 3].answered && h[n - 2] == Checked(true)
    && h[n - 4].Looked? && h[n - 4].seen.Some? && h[n - 4].seen.value.Found? && remote.Some?
    && h[n - 1] == Looked(Some(Found(remote.value, h[n - 4].seen.value.authority)))
  }

  lemma UploadIsConfirmed(was: seq<Step>, now: seq<Step>, before: Remote, after: Remote, authority: int)
    requires was != [] && was[|was| - 1] == Looked(Some(Found(before, authority)))
    requires exists event ::
               now == was + [Sent(event, true)] + [Checked(true)] + [Looked(Some(Found(after, authority)))]
    ensures UploadConfirmed(now, Some(after))
  {
  }

  /** The local file is still the staged asset, and the draft is looked at again. */
  method LookAfterUpload(gh: Service, m: Manifest, notes: string, asset: Asset) returns (last: Option<Selected>)
    modifies gh`clock, gh`history
    ensures gh.clock >= old(gh.clock) && (old(gh.Safe(m)) ==> gh.Safe(m))
    ensures forall was :: AllAnswered(was, old(gh.history)) ==> StopsAtLoss(was, gh.history) && AllAnswered(was, gh.history)
    ensures last.Some? ==>
              && gh.clock == old(gh.clock) + 2 && gh.staged(old(gh.clock) + 1, asset)
              && gh.remote.Some? && Selectable(m, notes, gh.remote)
              && last.value.release == gh.remote.value.release && last.value.plan.missing == Missing(m, gh.remote.value)
              && last.value.plan.present == Listed(ExpectedNames(m.tag), Ids(gh.remote.value.assets))
              && gh.history == old(gh.history) + [Checked(true)]
                               + [Looked(Some(Found(gh.remote.value, last.value.authority)))]
    ensures gh.Calm() && Selectable(m, notes, gh.remote) ==> last.Some? && last.value.authority == gh.authority(0)
  {
    hide *;
    last := None;
    var unchangedSource := gh.CheckSource(asset);
    if !unchangedSource {
      return;
    }
    SelectableMeans(m, notes, gh.remote);
    var seenLast := gh.Inspect();
    last := SelectedDraft(seenLast, m, notes);
  }

  /** Send exactly one missing asset to a draft that was seen twice, and look again. */
  method UploadOneDraftAsset(gh: Service, m: Manifest, notes: string) returns (outcome: Outcome)
    requires gh.Safe(m)
    modifies gh
    ensures gh.Faithful() && old(gh.ExactInventory(m)) ==> gh.ExactInventory(m)
    ensures gh.Safe(m) && !outcome.NoProgress? && !outcome.Exceeded?
    ensures StopsAtLoss(old(gh.history), gh.history)
    ensures !outcome.Halted? ==> AllAnswered(old(gh.history), gh.history)
    ensures gh.log == old(gh.log) || (|gh.log| == |old(gh.log)| + 1 && gh.log[|old(gh.log)|].UploadSent?)
    ensures gh.log != old(gh.log) ==>
              gh.SourceSeen(m, gh.log[|old(gh.log)|].name, old(gh.clock), gh.clock)
    ensures outcome.Uploaded? ==>
              gh.log != old(gh.log) && gh.SourceSeen(m, gh.log[|old(gh.log)|].name, old(gh.clock) + 4, gh.clock)
    ensures outcome.Uploaded? ==> UploadConfirmed(gh.history, gh.remote)
    ensures outcome.DraftComplete? ==>
              && gh.log == old(gh.log) && gh.remote == old(gh.remote) && Selectable(m, notes, gh.remote)
              && outcome.releaseId == gh.remote.value.release.id && Missing(m, gh.remote.value) == []
    ensures outcome.Uploaded? ==>
              && Selectable(m, notes, old(gh.remote)) && Selectable(m, notes, gh.remote)
              && old(gh.remote).Some? && gh.remote.Some?
              && outcome.remaining == |Missing(m, gh.remote.value)| == |Missing(m, old(gh.remote).value)| - 1
    ensures gh.Calm() && Selectable(m, notes, old(gh.remote)) ==> !outcome.Halted?
  {
    hide *;
    NoStepYet(gh.history);
    SelectableMeans(m, notes, gh.remote);
    CalmIsFaithful(gh);
    var first, asset := ChooseAsset(gh, m, notes);
    AnsweredThen(old(gh.history), gh.history, gh.history);
    if first.None? {
      return Halted;
    }
    if |first.value.plan.missing| == 0 {
      return DraftComplete(first.value.release.id);
    }
    if asset.None? {
      return Halted;
    }
    var name := asset.value.name;
    ValidWhenSelectable(m, notes, gh.remote);
    SafeMeans(gh, m);
    ghost var before, log, was := gh.remote, gh.log, gh.history;
    ghost var looked := gh.clock;
    var sent := RemoteAsset(0, name, asset.value.size, "sha256:" + asset.value.sha256, "uploaded");
    var response, stored := gh.PostAsset(sent);
    AfterUpload(gh, m, notes, was, log, before, asset.value, sent, stored);
    gh.LaterSource(m, name, old(gh.clock), looked);
    if response.None? || response.value.(id := 0) != sent || !(0 < response.value.id <= MAX_SAFE_INTEGER) {
      return Halted;
    }
    var last := LookAfterUpload(gh, m, notes, asset.value);
    if last.None? || last.value.release.id != first.value.release.id || last.value.authority != first.value.authority
       || Present(name, response.value.id) !in last.value.plan.present {
      return Halted;
    }
    gh.SourceAt(m, asset.value, old(gh.clock) + 4, gh.clock - 1, gh.clock);
    ListedMeans(ExpectedNames(m.tag), Ids(gh.remote.value.assets), name, response.value.id);
    UploadIsConfirmed(was, gh.history, before.value, gh.remote.value, first.value.authority);
    return Uploaded(first.value.release.id, |last.value.plan.missing|);
  }

  /** The parts of safety. */
  lemma SafeMeans(gh: Service, m: Manifest)
    requires gh.Safe(m)
    ensures SafeLog(m, gh.log) && SafeRemote(m, gh.remote) && ExactSoFar(m, gh.log, gh.remote) && Prudent(gh.history, gh.log)
  {
  }

  /** What an upload leaves behind is safe, and one fewer is missing when it took effect. */
  lemma AfterUpload(gh: Service, m: Manifest, notes: string, was: seq<Step>, log: seq<Event>, before: Option<Remote>,
                    asset: Asset, sent: RemoteAsset, stored: Option<RemoteAsset>)
    requires SafeLog(m, log) && SafeRemote(m, before) && ExactSoFar(m, log, before) && Prudent(was, log)
    requires Selectable(m, notes, before) && asset in m.assets && asset.name in Missing(m, before.value)
    requires UploadJustified(was, before.value.assets)
    requires sent == RemoteAsset(0, asset.name, asset.size, "sha256:" + asset.sha256, "uploaded")
    requires stored.Some? ==> exists t :: stored.value == gh.stores(t, before.value.assets, sent).(name := sent.name)
    requires gh.log == log + [UploadSent(asset.name, before.value.assets, stored)]
    requires gh.remote == Some(before.value.(assets := before.value.assets + if stored.Some? then [stored.value] else []))
    requires Prudent(was, log) && Justified(was, UploadSent(asset.name, before.value.assets, stored))
             ==> Prudent(gh.history, gh.log)
    ensures gh.Safe(m) && (gh.Faithful() ==> gh.ExactInventory(m) && Selectable(m, notes, gh.remote))
    ensures stored.Some? ==> |Missing(m, gh.remote.value)| == |Missing(m, before.value)| - 1
    ensures stored.None? ==> asset.name !in RemoteNames(gh.remote.value.assets)
    ensures gh.Faithful() && stored.Some? ==>
              && stored.value.(id := 0) == sent && 0 < stored.value.id <= MAX_SAFE_INTEGER
              && Present(sent.name, stored.value.id) in Listed(ExpectedNames(m.tag), Ids(gh.remote.value.assets))
  {
    hide SafeLog, SafeRemote, ExactSoFar, Selectable, Resumable, ExpectedNames, RemoteNames, Partial, Files, Ids, Listed;
    hide Missing, Service.Faithful, Prudent, UploadJustified;
    SelectableMeans(m, notes, before);
    assert stored.Some? ==> stored.value.name == asset.name;
    SentIsSafe(m, notes, log, before, asset.name, stored);
    SentIsExactSoFar(m, notes, log, before, asset.name, stored);
    StoredIsExact(gh, m, notes, before, asset, sent, stored);
    Progressed(m, before.value, asset.name, stored);
    assert Justified(was, UploadSent(asset.name, before.value.assets, stored));
  }

  lemma CalmIsFaithful(gh: Service)
    ensures gh.Calm() ==> gh.Faithful()
  {
  }

  lemma ValidWhenSelectable(m: Manifest, notes: string, remote: Option<Remote>)
    requires Selectable(m, notes, remote)
    ensures ValidManifest(m)
  {
  }

  lemma SelectableIsDraft(m: Manifest, notes: string, remote: Option<Remote>)
    requires Selectable(m, notes, remote)
    ensures remote.value.release.draft
  {
  }

  lemma SelectableMeans(m: Manifest, notes: string, remote: Option<Remote>)
    ensures Selectable(m, notes, remote) ==> remote.Some?
    ensures remote.Some? ==>
              && PlanOf(m, remote.value.release, remote.value.assets).missing == Missing(m, remote.value)
              && PlanOf(m, remote.value.release, remote.value.assets).present
                 == Listed(ExpectedNames(m.tag), Ids(remote.value.assets))
  {
  }

  /** Numbers that keep decreasing are few, whatever the uploads report. */
  lemma {:induction false} DecreasingIsShort(remaining: seq<nat>, total: nat)
    requires remaining != [] ==> remaining[0] < total
    requires forall i | 0 < i < |remaining| :: remaining[i] < remaining[i - 1]
    ensures |remaining| <= total
  {
    if remaining != [] {
      DecreasingIsShort(remaining[1..], remaining[0]);
    }
  }

  /** One upload after another, until nothing is missing. The checks on progress never fail. */
  method UploadAllDraftAssets(gh: Service, m: Manifest, notes: string) returns (outcome: Outcome)
    requires gh.Safe(m)
    modifies gh
    ensures gh.Faithful() && old(gh.ExactInventory(m)) ==> gh.ExactInventory(m)
    ensures gh.Safe(m) && (outcome.DraftComplete? || outcome.Halted?)
    ensures StopsAtLoss(old(gh.history), gh.history)
    ensures outcome.DraftComplete? ==> AllAnswered(old(gh.history), gh.history)
    ensures outcome.DraftComplete? ==>
              && Selectable(m, notes, gh.remote) && Missing(m, gh.remote.value) == []
              && outcome.releaseId == gh.remote.value.release.id
    ensures gh.Calm() && Selectable(m, notes, old(gh.remote)) ==> outcome.DraftComplete?
  {
    hide Prudent, StopsAtLoss, AllAnswered;
    NoStepYet(gh.history);
    CalmMeansValid(m, notes, gh.remote);
    hide SafeLog, SafeRemote, ExactSoFar, Selectable, Missing, Files, ExpectedNames, ValidManifest, Partial, Service.Faithful, Service.Calm;
    var files := ValidateStagedManifest(m);
    if files.None? {
      return Halted;
    }
    TwentyTwoFiles(m);
    StagedCount(m);
    var remaining := |m.assets|;
    var step := 0;
    while step <= |m.assets|
      invariant gh.Faithful() && old(gh.ExactInventory(m)) ==> gh.ExactInventory(m)
      invariant gh.Safe(m) && 0 <= step <= 22 - remaining && remaining >= 0
      invariant gh.Calm() && Selectable(m, notes, old(gh.remote)) ==> Selectable(m, notes, gh.remote)
      invariant AllAnswered(old(gh.history), gh.history)
      invariant if step == 0 then remaining == 22 else gh.remote.Some? && remaining == |Missing(m, gh.remote.value)|
      decreases 23 - step
    {
      MissingAtMost(m, gh.remote);
      ghost var was := gh.history;
      var state := UploadOneDraftAsset(gh, m, notes);
      AnsweredThen(old(gh.history), was, gh.history);
      if state.DraftComplete? {
        return state;
      }
      if !state.Uploaded? {
        return Halted;
      }
      if state.remaining >= remaining {
        return NoProgress;
      }
      remaining := state.remaining;
      step := step + 1;
    }
    return Exceeded;
  }

  lemma CalmMeansValid(m: Manifest, notes: string, remote: Option<Remote>)
    ensures Selectable(m, notes, remote) ==> ValidManifest(m)
  {
  }

  lemma StagedCount(m: Manifest)
    requires ValidManifest(m)
    ensures |m.assets| == 22
  {
    TwentyTwoNames(m.tag);
  }

  lemma MissingAtMost(m: Manifest, remote: Option<Remote>)
    ensures remote.Some? ==> |Missing(m, remote.value)| <= 22
  {
    TwentyTwoNames(m.tag);
    if remote.Some? {
      hide ExpectedNames;
      ListedCount(ExpectedNames(m.tag), Ids(remote.value.assets));
    }
  }

  /** The last two steps: a look at the release as it is and a check of the authority. */
  ghost predicate Confirmed(h: seq<Step>, remote: Option<Remote>) {
    var n := |h|;
    && n >= 2 && h[n - 1] == Checked(true)
    && h[n - 2].Looked? && h[n - 2].seen.Some? && h[n - 2].seen.value.Found? && remote == Some(h[n - 2].seen.value.remote)
  }

  /** Nothing is sent before a first check has succeeded. */
  ghost predicate CheckedFirst(was: seq<Step>, now: seq<Step>) {
    was <= now && forall k | |was| <= k < |now| && now[k].Sent? :: now[|was|] == Checked(true)
  }

  lemma ConfirmedBy(h: seq<Step>, r: Remote, authority: int)
    ensures Confirmed(h + [Looked(Some(Found(r, authority)))] + [Checked(true)], Some(r))
  {
  }

  lemma OneCheck(h: seq<Step>, ok: bool)
    ensures CheckedFirst(h, h + [Checked(ok)])
    ensures forall seen :: CheckedFirst(h, h + [Checked(ok)] + [Looked(seen)])
    ensures ok ==> CheckedStart(h, h + [Checked(ok)]) && forall seen :: CheckedStart(h, h + [Checked(ok)] + [Looked(seen)])
  {
  }

  ghost predicate CheckedStart(was: seq<Step>, now: seq<Step>) {
    was + [Checked(true)] <= now
  }

  lemma FirstIsChecked(was: seq<Step>, mid: seq<Step>, now: seq<Step>)
    requires CheckedStart(was, mid) && StopsAtLoss(mid, now)
    ensures CheckedFirst(was, now) && CheckedStart(was, now)
  {
  }

  /** Create one draft, from two separate looks that found none. */
  method CreateDraftRelease(gh: Service, m: Manifest, notes: string) returns (ok: bool)
    requires gh.Safe(m)
    modifies gh
    ensures gh.Faithful() && old(gh.ExactInventory(m)) ==> gh.ExactInventory(m)
    ensures gh.Safe(m)
    ensures StopsAtLoss(old(gh.history), gh.history) && (ok ==> AllAnswered(old(gh.history), gh.history))
    ensures ok ==> Confirmed(gh.history, gh.remote)
    ensures ok ==> old(gh.remote).None? && Selectable(m, notes, gh.remote) && gh.remote.value.assets == []
    ensures gh.remote != old(gh.remote) ==>
              old(gh.remote).None? && MetadataMatches(gh.remote.value, m, notes)
              && gh.remote.value.release.draft && gh.remote.value.assets == []
    ensures gh.Calm() && old(gh.remote).None? && ValidManifest(m) ==> ok
  {
    hide Confirmed, Prudent, StopsAtLoss, AllAnswered;
    NoStepYet(gh.history);
    EmptyIsPartial(Files(m.assets));
    hide SafeLog, SafeRemote, ExactSoFar, ValidManifest, Partial, Files;
    var files := ValidateStagedManifest(m);
    if files.None? {
      return false;
    }
    var first := gh.Inspect();
    var again := gh.Inspect();
    if first != Some(Nothing) || again != Some(Nothing) {
      return false;
    }
    ghost var log := gh.log;
    var created := gh.PostRelease(m.tag, notes, '-' in m.tag);
    CreatedIsSafe(m, log, gh.remote);
    if created.None? || !(0 < created.value <= MAX_SAFE_INTEGER) {
      return false;
    }
    ghost var posted := gh.history;
    var seen := gh.Inspect();
    if seen.None? || seen.value.Nothing? {
      return false;
    }
    var r := seen.value.remote;
    ConfirmedBy(posted, r, seen.value.authority);
    ok := VerifyMetadata(r, m, notes);
    ok := ok && r.release.id == created.value && r.release.draft && !r.release.immutable && |r.assets| == 0;
    if ok {
      ok := gh.Check();
    }
  }

  lemma EmptyIsPartial(files: map<string, Asset>)
    ensures Partial(files, [])
  {
  }

  lemma CreatedIsSafe(m: Manifest, log: seq<Event>, remote: Option<Remote>)
    requires SafeLog(m, log) && ExactSoFar(m, log, None)
    requires remote.None? || (remote.value.release.draft && remote.value.assets == [])
    ensures SafeLog(m, log + [CreateSent(None)]) && SafeRemote(m, remote) && ExactSoFar(m, log + [CreateSent(None)], remote)
  {
    EmptyIsPartial(Files(m.assets));
    ExactStep(m, log, None, CreateSent(None), remote);
    hide SafeEvent, ExactSoFar, Partial, Files;
    assert SafeEvent(m, CreateSent(None)) by {
      NothingExists(m);
    }
  }

  lemma NothingExists(m: Manifest)
    ensures SafeEvent(m, CreateSent(None))
  {
  }

  /** A draft with everything uploaded: found or created, then filled. */
  method PrepareDraftAssets(gh: Service, m: Manifest, notes: string) returns (outcome: Outcome)
    requires gh.Safe(m)
    modifies gh
    ensures gh.Faithful() && old(gh.ExactInventory(m)) ==> gh.ExactInventory(m)
    ensures gh.Safe(m) && (outcome.DraftComplete? || outcome.Halted?)
    ensures StopsAtLoss(old(gh.history), gh.history) && CheckedFirst(old(gh.history), gh.history)
    ensures outcome.DraftComplete? ==> AllAnswered(old(gh.history), gh.history)
    ensures outcome.DraftComplete? ==>
              && Selectable(m, notes, gh.remote) && Missing(m, gh.remote.value) == []
              && outcome.releaseId == gh.remote.value.release.id
    ensures gh.Calm() && ValidManifest(m) && (old(gh.remote).None? || Selectable(m, notes, old(gh.remote))) ==>
              outcome.DraftComplete?
  {
    hide *;
    NoStepYet(gh.history);
    var sources := gh.Check();
    OneCheck(old(gh.history), sources);
    var discovery := gh.Inspect();
    if !sources || discovery.None? {
      return Halted;
    }
    if discovery.value.Nothing? {
      ghost var was := gh.history;
      var created := CreateDraftRelease(gh, m, notes);
      AnsweredThen(old(gh.history), was, gh.history);
      FirstIsChecked(old(gh.history), was, gh.history);
      if !created {
        return Halted;
      }
    }
    ghost var was := gh.history;
    outcome := UploadAllDraftAssets(gh, m, notes);
    AnsweredThen(old(gh.history), was, gh.history);
    FirstIsChecked(old(gh.history), was, gh.history);
  }

  /** The draft is complete, seen so twice, and it is the expected one. */
  method ConfirmComplete(gh: Service, m: Manifest, notes: string, expectedId: Option<int>) returns (id: Option<int>)
    modifies gh
    ensures gh.log == old(gh.log) && gh.remote == old(gh.remote)
    ensures AllAnswered(old(gh.history), gh.history) && (old(gh.Safe(m)) ==> gh.Safe(m))
    ensures id.Some? ==> |gh.history| == |old(gh.history)| + 4
    ensures id.Some? ==> gh.remote.Some? && PublishJustified(gh.history, gh.remote.value.assets)
    ensures id.Some? ==>
              && gh.remote.Some? && MetadataMatches(gh.remote.value, m, notes) && gh.remote.value.release.id == id.value
              && Verified(m, gh.remote.value.release, gh.remote.value.assets, true, false)
              && (expectedId.Some? ==> id == expectedId)
    ensures gh.Calm() && Selectable(m, notes, old(gh.remote)) && Missing(m, old(gh.remote).value) == []
            && (expectedId.Some? ==> old(gh.remote).value.release.id == expectedId.value) ==>
              id.Some?
  {
    hide PublishJustified, Prudent, StopsAtLoss, AllAnswered;
    NoStepYet(gh.history);
    SelectableMeans(m, notes, gh.remote);
    CompleteWhenNothingMissing(m, notes, gh.remote);
    hide Selectable, Resumable, Verified, PlanOf, Missing, Service.Calm;
    var policy := gh.Check();
    var seen := gh.Inspect();
    var first := SelectedDraft(seen, m, notes);
    if !policy || first.None? || (expectedId.Some? && first.value.release.id != expectedId.value)
       || |first.value.plan.missing| != 0 || |first.value.plan.present| != 22 {
      return None;
    }
    var seenAgain := gh.Inspect();
    var second := SelectedDraft(seenAgain, m, notes);
    var samePolicy := gh.Check();
    if second != first || !samePolicy {
      return None;
    }
    SelectableIsDraft(m, notes, gh.remote);
    PublishFollows(old(gh.history), seen.value, seenAgain.value, gh.remote.value);
    NothingMissingVerified(m, notes, gh.remote);
    return Some(first.value.release.id);
  }

  /** Publish the draft that was seen complete twice. */
  method PublishCompleteDraft(gh: Service, m: Manifest, notes: string, expectedId: Option<int>)
    returns (count: Option<nat>)
    requires gh.Safe(m)
    modifies gh
    ensures gh.Faithful() && old(gh.ExactInventory(m)) ==> gh.ExactInventory(m)
    ensures gh.Safe(m)
    ensures StopsAtLoss(old(gh.history), gh.history)
    ensures count.Some? ==> |gh.history| == |old(gh.history)| + 6 && gh.history[|gh.history| - 2].Sent?
    ensures count.Some? ==> AllAnswered(old(gh.history), gh.history)
    ensures count.Some? ==>
              && count.value == 22 && gh.remote.Some?
              && Verified(m, gh.remote.value.release, gh.remote.value.assets, false, true)
              && MetadataMatches(gh.remote.value, m, notes)
              && (expectedId.Some? ==> gh.remote.value.release.id == expectedId.value)
    ensures gh.Calm() && Selectable(m, notes, old(gh.remote)) && Missing(m, old(gh.remote).value) == []
            && (expectedId.Some? ==> old(gh.remote).value.release.id == expectedId.value) ==>
              count.Some?
  {
    hide PublishJustified, Prudent, StopsAtLoss, AllAnswered;
    NoStepYet(gh.history);
    hide SafeLog, SafeRemote, ExactSoFar, Selectable, Verified, Missing, Service.Calm, Service.Faithful, Partial, Files;
    var id := ConfirmComplete(gh, m, notes, expectedId);
    AnsweredThen(old(gh.history), gh.history, gh.history);
    if id.None? {
      return None;
    }
    ghost var before, log, was := gh.remote, gh.log, gh.history;
    var confirmed, published := gh.PatchPublic();
    PublishedIsSafe(m, log, before.value, published);
    PublishedIsVerified(m, before.value);
    if !confirmed {
      return None;
    }
    var public := gh.Inspect();
    if public.None? || public.value.Nothing? || public.value.remote.release.id != id.value {
      return None;
    }
    var described := VerifyMetadata(public.value.remote, m, notes);
    if !described {
      return None;
    }
    count := VerifyReleaseAssetSetForState(m, public.value.remote.release, public.value.remote.assets, false, true);
  }

  /** With nothing missing all 22 are listed. */
  lemma CompleteWhenNothingMissing(m: Manifest, notes: string, remote: Option<Remote>)
    ensures Selectable(m, notes, remote) && Missing(m, remote.value) == [] ==>
              |PlanOf(m, remote.value.release, remote.value.assets).present| == 22
  {
    hide Resumable, ExpectedNames;
    if Selectable(m, notes, remote) && Missing(m, remote.value) == [] {
      NothingMissingIsComplete(m, remote.value.release, remote.value.assets);
    }
  }

  lemma NothingMissingVerified(m: Manifest, notes: string, remote: Option<Remote>)
    requires Selectable(m, notes, remote) && PlanOf(m, remote.value.release, remote.value.assets).missing == []
    ensures Verified(m, remote.value.release, remote.value.assets, true, false) && MetadataMatches(remote.value, m, notes)
  {
    NothingMissingIsComplete(m, remote.value.release, remote.value.assets);
  }

  lemma PublishedIsVerified(m: Manifest, r: Remote)
    requires Verified(m, r.release, r.assets, true, false)
    ensures Verified(m, MadePublic(r).release, r.assets, false, true)
  {
  }

  lemma PublishedIsSafe(m: Manifest, log: seq<Event>, r: Remote, published: bool)
    requires SafeLog(m, log) && SafeRemote(m, Some(r)) && Verified(m, r.release, r.assets, true, false)
    requires ExactSoFar(m, log, Some(r))
    ensures SafeLog(m, log + [PublishSent(r.assets, published)])
    ensures SafeRemote(m, Some(MadePublic(r)))
    ensures ExactSoFar(m, log + [PublishSent(r.assets, published)], Some(if published then MadePublic(r) else r))
  {
    hide Partial, Files, ValidManifest;
    ExactStep(m, log, Some(r), PublishSent(r.assets, published), Some(if published then MadePublic(r) else r));
    hide ExactSoFar;
    assert SafeEvent(m, PublishSent(r.assets, published));
    hide SafeEvent;
  }

  lemma SixLater(was: seq<Step>, now: seq<Step>)
    requires was != []
    ensures AllAnswered(was, now) && |now| == |was| + 6 ==> now[|now| - 7] == was[|was| - 1]
  {
  }

  /** The whole job: prepare the draft, then publish that draft. */
  method FinalizeCompleteRelease(gh: Service, m: Manifest, notes: string) returns (count: Option<nat>)
    requires gh.Safe(m)
    modifies gh
    ensures gh.Faithful() && old(gh.ExactInventory(m)) ==> gh.ExactInventory(m)
    ensures gh.Safe(m)
    ensures StopsAtLoss(old(gh.history), gh.history)
    ensures CheckedFirst(old(gh.history), gh.history)
    ensures count.Some? ==>
              var n := |gh.history|;
              n >= 7 && gh.history[n - 2].Sent? && gh.history[n - 7] == Checked(true)
    ensures count.Some? ==> AllAnswered(old(gh.history), gh.history)
    ensures count.Some? ==>
              count.value == 22 && gh.remote.Some? && Verified(m, gh.remote.value.release, gh.remote.value.assets, false, true)
    ensures gh.Calm() && ValidManifest(m) && (old(gh.remote).None? || Selectable(m, notes, old(gh.remote))) ==> count == Some(22)
  {
    hide *;
    NoStepYet(gh.history);
    var authorized := gh.Check();
    OneCheck(old(gh.history), authorized);
    if !authorized {
      return None;
    }
    ghost var was := gh.history;
    var prepared := PrepareDraftAssets(gh, m, notes);
    AnsweredThen(old(gh.history), was, gh.history);
    FirstIsChecked(old(gh.history), was, gh.history);
    if !prepared.DraftComplete? {
      return None;
    }
    var stillApproved := gh.Check();
    FirstIsChecked(old(gh.history), was, gh.history);
    if !stillApproved {
      return None;
    }
    ghost var ready := gh.history;
    count := PublishCompleteDraft(gh, m, notes, Some(prepared.releaseId));
    AnsweredThen(old(gh.history), ready, gh.history);
    FirstIsChecked(old(gh.history), ready, gh.history);
    SixLater(ready, gh.history);
  }

  // ----- any number of invocations

  datatype Command = UploadOne | UploadAll | Create | Prepare | Publish | Finalize

  /** Whatever is invoked, in whatever order and however it ends: no name that is present is uploaded, a
      release is only created when there is none, and only a complete draft is published. */
  method Invoke(gh: Service, m: Manifest, notes: string, commands: seq<Command>)
    requires gh.Safe(m)
    modifies gh
    ensures gh.Faithful() && old(gh.ExactInventory(m)) ==> gh.ExactInventory(m)
    ensures gh.Safe(m)
  {
    for k := 0 to |commands|
      invariant gh.Safe(m) && (gh.Faithful() && old(gh.ExactInventory(m)) ==> gh.ExactInventory(m))
    {
      match commands[k] {
        case UploadOne => var _ := UploadOneDraftAsset(gh, m, notes);
        case UploadAll => var _ := UploadAllDraftAssets(gh, m, notes);
        case Create => var _ := CreateDraftRelease(gh, m, notes);
        case Prepare => var _ := PrepareDraftAssets(gh, m, notes);
        case Publish => var _ := PublishCompleteDraft(gh, m, notes, None);
        case Finalize => var _ := FinalizeCompleteRelease(gh, m, notes);
      }
    }
  }

  lemma {:induction false} SentIsRequested(history: seq<Step>, k: nat)
    requires k < |history| && history[k].Sent?
    ensures history[k].event in Requests(history)
  {
    if k < |history| - 1 {
      SentIsRequested(history[..|history| - 1], k);
    }
  }

  /** What was done before each request, whatever the invocations were: a release is created right after two
      looks at nothing; an asset goes to a draft that misses it, seen equal before and after the local file was
      checked; and a draft is published that was seen equal twice, between two checks of the policy, with all
      staged files in it. */
  lemma RequestsAreJustified(gh: Service, m: Manifest, k: nat)
    requires gh.Safe(m) && k < |gh.history| && gh.history[k].Sent?
    ensures var h, event := gh.history, gh.history[k].event;
            && (event.CreateSent? ==>
                  k >= 2 && h[k - 2] == h[k - 1] == Looked(Some(Nothing)) && event.existing.None?)
            && (event.UploadSent? ==>
                  && k >= 3 && h[k - 3] == h[k - 1] && h[k - 2] == Checked(true) && DraftSeen(h[k - 1], event.before)
                  && event.name in ExpectedNames(m.tag) && event.name !in RemoteNames(event.before)
                  && Partial(Files(m.assets), event.before))
            && (event.PublishSent? ==>
                  && k >= 4 && h[k - 4] == h[k - 1] == Checked(true) && h[k - 3] == h[k - 2]
                  && DraftSeen(h[k - 2], event.before) && Complete(Files(m.assets), event.before))
  {
    hide ExpectedNames, RemoteNames, Files, Partial, Complete, DraftSeen, SafeRemote, ExactSoFar;
    SentIsRequested(gh.history, k);
    var i :| 0 <= i < |gh.log| && gh.log[i] == gh.history[k].event;
    assert SafeEvent(m, gh.log[i]);
    assert Justified(gh.history[..k], gh.history[k].event);
  }

  /** A public release has exactly the 22 staged files: every asset is a copy of one of them, and every one of
      them is there. */
  lemma PublicIsComplete(m: Manifest, remote: Remote)
    requires ValidManifest(m) && SafeRemote(m, Some(remote)) && !remote.release.draft
    ensures |remote.assets| == 22 && RemoteNames(remote.assets) == Elements(ExpectedNames(m.tag))
    ensures StagedOnce(m.assets, remote.assets)
    ensures forall a | a in m.assets :: a.name in RemoteNames(remote.assets)
  {
    TwentyTwoFiles(m);
    CompleteHasAll(Files(m.assets), remote.assets);
    PartialIsStaged(m, remote.assets);
    hide ExpectedNames, Files, StagedOnce;
    forall a | a in m.assets ensures a.name in RemoteNames(remote.assets) {
      assert a.name in Files(m.assets).Keys;
    }
  }

  /** Each public asset has the name, the size and the digest of a staged file. */
  lemma PublicIsStaged(m: Manifest, remote: Remote, k: nat) returns (a: Asset)
    requires ValidManifest(m) && SafeRemote(m, Some(remote)) && !remote.release.draft && k < |remote.assets|
    ensures a in m.assets && remote.assets[k].name == a.name && remote.assets[k].size == a.size
    ensures remote.assets[k].digest == "sha256:" + a.sha256 && remote.assets[k].state == "uploaded"
  {
    PublicIsComplete(m, remote);
    hide ValidManifest, SafeRemote;
    a := StagedMeans(m.assets, remote.assets[k]);
  }

  // ----- a service that works

  /** The first number from `n` on that is not taken. */
  function FirstFree(taken: set<int>, n: int): (id: int)
    ensures n <= id <= n + |taken| && id !in taken
    decreases |taken|
  {
    if n !in taken then n else FirstFree(taken - {n}, n + 1)
  }

  lemma {:induction false} FewIds(inventory: seq<RemoteAsset>)
    ensures |RemoteIds(inventory)| <= |inventory|
  {
    if inventory == [] {
      assert RemoteIds(inventory) == {};
    } else {
      var init, last := inventory[..|inventory| - 1], inventory[|inventory| - 1];
      FewIds(init);
      assert inventory == init + [last];
      assert forall k | 0 <= k < |init| :: inventory[k] == init[k];
      assert RemoteIds(inventory) == RemoteIds(init) + {last.id};
    }
  }

  function StoredExactly(t: nat, inventory: seq<RemoteAsset>, asset: RemoteAsset): RemoteAsset {
    asset.(id := FirstFree(RemoteIds(inventory), 1))
  }

  lemma StoredUnderFreeId(inventory: seq<RemoteAsset>, asset: RemoteAsset)
    requires |inventory| < 22
    ensures var s := StoredExactly(0, inventory, asset);
            0 < s.id <= MAX_SAFE_INTEGER && forall k | 0 <= k < |inventory| :: inventory[k].id != s.id
  {
    FewIds(inventory);
    hide FirstFree;
    assert forall k | 0 <= k < |inventory| :: inventory[k].id in RemoteIds(inventory);
  }

  /** A service that answers and does everything it is asked, on which no release exists yet. */
  method HealthyService() returns (gh: Service)
    ensures fresh(gh) && gh.Calm() && gh.remote.None? && forall m :: gh.Safe(m)
  {
    var always := (t: nat) => true;
    var answer := (t: nat, stored: Option<RemoteAsset>) =>
      match stored case Some(x) => x case None => RemoteAsset(0, [], 0, [], []);
    gh := new Service(always, always, StoredExactly, answer, (t: nat) => 1, (t: nat) => 0, (t: nat, a: Asset) => true);
    forall t: nat, inventory: seq<RemoteAsset>, asset: RemoteAsset | |inventory| < 22 && asset.state == "uploaded"
      ensures var s := gh.stores(t, inventory, asset);
              && s.size == asset.size && s.digest == asset.digest && s.state == "uploaded"
              && 0 < s.id <= MAX_SAFE_INTEGER && forall k | 0 <= k < |inventory| :: inventory[k].id != s.id
    {
      StoredUnderFreeId(inventory, asset);
    }
    hide StoredExactly, SafeLog, SafeRemote, ExactSoFar;
    assert gh.Faithful();
  }

  /** A manifest of one-byte files for a tag. */
  function SmallManifest(tag: string, commit: string): Manifest {
    var names := ExpectedNames(tag);
    Manifest(REPOSITORY, tag, commit, seq(|names|, k requires 0 <= k < |names| => Asset(names[k], 1, seq(64, _ => '0'))))
  }

  lemma SmallManifestIsValid(tag: string, commit: string)
    requires ValidTag(tag) && AllLowerHex(commit, 40)
    ensures ValidManifest(SmallManifest(tag, commit))
  {
    TwentyTwoNames(tag);
    var m := SmallManifest(tag, commit);
    hide ExpectedNames, ValidTag;
    forall k | 0 <= k < |m.assets| ensures m.assets[k].name in Elements(ExpectedNames(tag)) && ValidAsset(m.assets[k]) {
    }
  }

  /** There are runs in which nothing goes wrong, and they end with a verified public release. */
  method HealthyRun(tag: string, commit: string, notes: string) returns (count: Option<nat>)
    requires ValidTag(tag) && AllLowerHex(commit, 40)
    ensures count == Some(22)
  {
    var m := SmallManifest(tag, commit);
    SmallManifestIsValid(tag, commit);
    hide ValidManifest, Service.Calm, Service.Safe;
    var gh := HealthyService();
    count := FinalizeCompleteRelease(gh, m, notes);
  }
}
