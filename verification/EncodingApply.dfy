/** Applying a prepared encoding conversion, filetoolsserver/handler/convert_encoding_preview_apply.go,
    exact_byte_mutation.go and convert_encoding.go: revalidate, back up, revalidate, then replace and verify
    one target after another, while the environment changes files at any point.
 */
module EncodingApply {
  import opened Basics
  import opened Wrappers
  import opened SharedDisk

  const CONVERT_ENCODING := "convert_encoding"

  // ----- the paths of a batch

  /** How a requested path resolves, and when two resolved paths are the same file. */
  datatype Paths = Paths(resolve: string -> Option<string>, key: string -> string) {

    /** The batch names every file once, and no adjacent backup is one of the targets. */
    ghost predicate Distinct(paths: seq<string>, backup: bool) {
      && (forall i | 0 <= i < |paths| :: resolve(paths[i]).Some?)
      && (forall i, j | 0 <= i < j < |paths| :: Key(paths[i]) != Key(paths[j]))
      && (backup ==> forall i | 0 <= i < |paths| ::
            BackupOf(paths[i]).Some? && forall j | 0 <= j < |paths| :: key(BackupOf(paths[i]).value) != Key(paths[j]))
    }

    function Key(path: string): string {
      match resolve(path)
      case Some(resolved) => key(resolved)
      case None => []
    }

    function BackupOf(path: string): Option<string> {
      match resolve(path)
      case Some(resolved) => resolve(resolved + ".bak")
      case None => None
    }

    /** The two loops over the requested paths, with the map of targets seen so far. */
    method ValidateBatch(paths: seq<string>, backup: bool) returns (ok: bool)
      ensures ok <==> Distinct(paths, backup)
    {
      var targets: map<string, string> := map[];
      for index := 0 to |paths|
        invariant forall i | 0 <= i < index :: resolve(paths[i]).Some?
        invariant forall i, j | 0 <= i < j < index :: Key(paths[i]) != Key(paths[j])
        invariant forall k :: k in targets <==> exists i :: 0 <= i < index && Key(paths[i]) == k
      {
        var validated := resolve(paths[index]);
        if validated.None? {
          return false;
        }
        var k := key(validated.value);
        if k in targets {
          return false;
        }
        targets := targets[k := paths[index]];
      }
      if !backup {
        return true;
      }
      for index := 0 to |paths|
        invariant forall i | 0 <= i < index ::
                    BackupOf(paths[i]).Some? && forall j | 0 <= j < |paths| :: key(BackupOf(paths[i]).value) != Key(paths[j])
      {
        var validatedBackup := resolve(resolve(paths[index]).value + ".bak");
        if validatedBackup.None? {
          return false;
        }
        if key(validatedBackup.value) in targets {
          return false;
        }
      }
      ok := true;
    }
  }

  // ----- what was prepared

  /** `approved` is the content the preview showed, `data` the converted bytes, `result` their recorded fingerprint. */
  datatype Target = Target(path: string, approved: string, data: string, result: string, changed: bool, bak: Option<string>)

  datatype Item = Item(applied: bool, backupID: string, failed: bool)

  datatype Output = Output(items: seq<Item>, applied: bool, partialCommit: bool, committed: nat)

  /** The backup identifiers an output reports. */
  function BackupIDs(output: Output): (ids: seq<string>)
    ensures |ids| == |output.items|
  {
    seq(|output.items|, k requires 0 <= k < |output.items| => output.items[k].backupID)
  }

  function Fresh(n: nat): Output {
    Output(seq(n, _ => Item(false, [], false)), false, false, 0)
  }

  /** One target's replacement as the log shows it: the approved content seen, the file replaced, the result seen. */
  function Converted(t: Target): seq<Event> {
    [Observed(t.path, t.approved)] + ReplacementEvents(t.path, t.approved, t.result, t.bak) + [Observed(t.path, t.result)]
  }

  /** What the first `n` targets leave in the log when all goes well. */
  function AllConverted(targets: seq<Target>, n: nat): seq<Event>
    requires n <= |targets|
  {
    if n == 0 then []
    else AllConverted(targets, n - 1) + if targets[n - 1].changed then Converted(targets[n - 1]) else []
  }

  function CountChanged(targets: seq<Target>, n: nat): nat
    requires n <= |targets|
  {
    if n == 0 then 0 else CountChanged(targets, n - 1) + if targets[n - 1].changed then 1 else 0
  }

  /** What the target that failed can leave in the log. The file is written only over its approved content. */
  ghost predicate Attempted(t: Target, tail: seq<Event>) {
    || tail == []
    || (exists content :: content != t.approved && tail == [Observed(t.path, content)])
    || (exists events :: Abandoned(t.approved, t.bak, events) && tail == [Observed(t.path, t.approved)] + events)
    || WrittenOnly(t, tail)
  }

  /** The file was written, and the result was not seen afterwards. */
  ghost predicate WrittenOnly(t: Target, tail: seq<Event>) {
    var written := [Observed(t.path, t.approved)] + ReplacementEvents(t.path, t.approved, t.result, t.bak);
    tail == written || exists content :: content != t.result && tail == written + [Observed(t.path, content)]
  }

  /** The targets are different files, and no adjacent backup is one of them. */
  ghost predicate Apart(targets: seq<Target>) {
    && (forall i, j | 0 <= i < j < |targets| :: targets[i].path != targets[j].path)
    && (forall i, j | 0 <= i < |targets| && 0 <= j < |targets| && targets[i].bak.Some? :: targets[i].bak.value != targets[j].path)
  }

  // ----- when nothing interferes

  /** Every prepared result still has its recorded fingerprint. */
  predicate Intact(targets: seq<Target>) {
    forall i | 0 <= i < |targets| :: targets[i].data == targets[i].result
  }

  predicate AsApproved(files: map<string, string>, target: Target) {
    target.path in files && files[target.path] == target.approved
  }

  ghost predicate AllAsApproved(files: map<string, string>, targets: seq<Target>, from: nat) {
    forall i | from <= i < |targets| :: AsApproved(files, targets[i])
  }

  /** The files after the first `n` conversions. */
  function AllReplaced(files: map<string, string>, targets: seq<Target>, n: nat): map<string, string>
    requires n <= |targets|
  {
    if n == 0 then files
    else
      var t, earlier := targets[n - 1], AllReplaced(files, targets, n - 1);
      if t.changed then WithReplacement(earlier, t.path, t.approved, t.result, t.bak) else earlier
  }

  // ----- revalidation and backups

  /** The target still has the approved content. */
  method Revalidate(disk: Disk, target: Target) returns (ok: bool)
    requires disk.Valid()
    modifies disk
    ensures disk.Valid() && old(disk.trace) <= disk.trace
    ensures ok ==> disk.log == old(disk.log) + [Observed(target.path, target.approved)]
    ensures !ok ==> disk.log == old(disk.log)
                    || exists content :: content != target.approved && disk.log == old(disk.log) + [Observed(target.path, content)]
    ensures disk.Calm() ==> disk.files == old(disk.files) && (AsApproved(old(disk.files), target) ==> ok)
  {
    var content := disk.Read(target.path);
    ok := content == Some(target.approved);
  }

  /** A committed manifest is a durable backup of the approved content. */
  ghost predicate Matches(manifest: Manifest, target: Target) {
    ValidPreviewID(manifest.id) && manifest == Manifest(manifest.id, target.path, CONVERT_ENCODING, target.approved)
  }

  /** The checks of a captured backup, one by one. */
  method ValidateCaptured(manifest: Manifest, target: Target) returns (ok: bool)
    ensures ok <==> Matches(manifest, target)
    ensures ok <==>
              ValidPreviewID(manifest.id) && manifest.path == target.path && manifest.operation == "convert_encoding"
              && manifest.content == target.approved
  {
    if !ValidPreviewID(manifest.id) || manifest.path != target.path || manifest.operation != CONVERT_ENCODING {
      return false;
    }
    ok := manifest.content == target.approved;
  }

  /** A durable backup of exactly the approved content was committed under this identifier. */
  ghost predicate BackedUp(events: seq<Event>, target: Target, id: string) {
    ValidPreviewID(id) && Captured(Manifest(id, target.path, CONVERT_ENCODING, target.approved)) in events
  }

  ghost predicate AllBackedUp(events: seq<Event>, targets: seq<Target>, ids: seq<string>) {
    |ids| == |targets| && forall i | 0 <= i < |targets| && targets[i].changed :: BackedUp(events, targets[i], ids[i])
  }

  /** Identifiers are only reported of manifests that were committed. */
  ghost predicate Committed(events: seq<Event>, ids: seq<string>) {
    forall i | 0 <= i < |ids| && ids[i] != [] :: IsCommitted(events, ids[i])
  }

  ghost predicate IsCommitted(events: seq<Event>, id: string) {
    exists k :: 0 <= k < |events| && events[k].Captured? && events[k].manifest.id == id
  }

  /** Nothing but looking and backing up. */
  predicate Harmless(events: seq<Event>) {
    forall k | 0 <= k < |events| :: events[k].Observed? || events[k].SeenAbsent? || events[k].Captured?
  }

  /** Backups stay backups among more events. */
  lemma BackedUpAmong(before: seq<Event>, events: seq<Event>, more: seq<Event>, targets: seq<Target>, ids: seq<string>)
    ensures AllBackedUp(events, targets, ids) ==> AllBackedUp(before + events + more, targets, ids)
    ensures Committed(events, ids) ==> Committed(before + events + more, ids)
  {
    var all := before + events + more;
    assert forall k | 0 <= k < |events| :: all[|before| + k] == events[k];
    forall i | 0 <= i < |ids| && Committed(events, ids) && ids[i] != [] ensures IsCommitted(all, ids[i]) {
      assert IsCommitted(events, ids[i]);
      var k :| 0 <= k < |events| && events[k].Captured? && events[k].manifest.id == ids[i];
      assert all[|before| + k].Captured? && all[|before| + k].manifest.id == ids[i];
    }
  }

  lemma HarmlessMore(events: seq<Event>, more: seq<Event>)
    requires Harmless(events) && Harmless(more)
    ensures Harmless(events + more)
  {
  }

  /** The changed targets' positions, in order. */
  function ChangedIndices(targets: seq<Target>, n: nat): (indices: seq<nat>)
    requires n <= |targets|
    ensures forall k | 0 <= k < |indices| :: indices[k] < n && targets[indices[k]].changed
    ensures forall j, k | 0 <= j < k < |indices| :: indices[j] < indices[k]
    ensures forall i | 0 <= i < n && targets[i].changed :: i in indices
  {
    if n == 0 then []
    else ChangedIndices(targets, n - 1) + if targets[n - 1].changed then [n - 1] else []
  }

  method FindChanged(targets: seq<Target>) returns (indices: seq<nat>)
    ensures indices == ChangedIndices(targets, |targets|)
  {
    indices := [];
    for index := 0 to |targets|
      invariant indices == ChangedIndices(targets, index)
    {
      if targets[index].changed {
        indices := indices + [index];
      }
    }
  }

  /** One required backup. A manifest that was committed with an error still counts. */
  method CaptureRequired(disk: Disk, target: Target) returns (id: string, ok: bool, ghost events: seq<Event>)
    requires disk.Valid()
    modifies disk
    ensures disk.Valid() && old(disk.trace) <= disk.trace
    ensures disk.log == old(disk.log) + events && Harmless(events)
    ensures ok <==> BackedUp(events, target, id)
    ensures id != [] ==> IsCommitted(events, id)
    ensures disk.Calm() ==> disk.files == old(disk.files)
    ensures disk.Calm() && disk.StoreWorks() && AsApproved(old(disk.files), target) ==> ok
  {
    var manifest, _ := disk.Capture(target.path, CONVERT_ENCODING);
    events := if manifest.Some? then [Captured(manifest.value)] else [];
    if manifest.None? || manifest.value.id == [] {
      return [], false, events;
    }
    assert events[0] == Captured(manifest.value);
    id := manifest.value.id;
    ok := ValidateCaptured(manifest.value, target);
  }

  /** The identifiers of the captures, each at its target's position. */
  ghost predicate Placed(indices: seq<nat>, manifests: seq<Manifest>, ids: seq<string>, count: nat) {
    && count <= |indices| && count <= |manifests|
    && (forall k | 0 <= k < count :: indices[k] < |ids| && ids[indices[k]] == manifests[k].id)
    && (forall i | 0 <= i < |ids| && ids[i] != [] :: exists k :: 0 <= k < count && indices[k] == i)
  }

  lemma BatchCovers(targets: seq<Target>, indices: seq<nat>, manifests: seq<Manifest>, ids: seq<string>)
    requires |ids| == |targets| && Placed(indices, manifests, ids, |indices|)
    requires forall i | 0 <= i < |targets| && targets[i].changed :: i in indices
    requires AllVerified(targets, indices, manifests)
    ensures AllBackedUp(CapturedAll(manifests), targets, ids)
  {
    forall i | 0 <= i < |targets| && targets[i].changed ensures BackedUp(CapturedAll(manifests), targets[i], ids[i]) {
      var k :| 0 <= k < |indices| && indices[k] == i;
      assert CapturedAll(manifests)[k] == Captured(Manifest(ids[i], targets[i].path, CONVERT_ENCODING, targets[i].approved));
    }
  }

  lemma PlacedIsCommitted(indices: seq<nat>, manifests: seq<Manifest>, ids: seq<string>, count: nat)
    requires Placed(indices, manifests, ids, count)
    ensures Committed(CapturedAll(manifests), ids)
  {
    forall i | 0 <= i < |ids| && ids[i] != [] ensures IsCommitted(CapturedAll(manifests), ids[i]) {
      var k :| 0 <= k < count && indices[k] == i;
      assert CapturedAll(manifests)[k] == Captured(manifests[k]);
    }
  }

  lemma PlacedStep(indices: seq<nat>, manifests: seq<Manifest>, ids: seq<string>, count: nat)
    requires Placed(indices, manifests, ids, count) && count < |indices| && count < |manifests| && indices[count] < |ids|
    requires forall j, k | 0 <= j < k < |indices| :: indices[j] < indices[k]
    ensures Placed(indices, manifests, ids[indices[count] := manifests[count].id], count + 1)
  {
    var placed := ids[indices[count] := manifests[count].id];
    forall i | 0 <= i < |placed| && placed[i] != [] ensures exists k :: 0 <= k < count + 1 && indices[k] == i {
      if i != indices[count] {
        var k :| 0 <= k < count && indices[k] == i;
      }
    }
  }

  /** Backups of all changed targets, checked one by one against what was approved. */
  method CaptureRequiredBackups(disk: Disk, targets: seq<Target>)
    returns (ids: seq<string>, ok: bool, ghost events: seq<Event>)
    requires disk.Valid()
    modifies disk
    ensures disk.Valid() && old(disk.trace) <= disk.trace
    ensures disk.log == old(disk.log) + events && Harmless(events) && |ids| == |targets|
    ensures ok ==> AllBackedUp(events, targets, ids)
    ensures Committed(events, ids)
    ensures disk.Calm() ==> disk.files == old(disk.files)
    ensures disk.Calm() && disk.StoreWorks() && AllAsApproved(old(disk.files), targets, 0) ==> ok
  {
    ids, events := seq(|targets|, _ => []), [];
    hide Disk.Valid;
    var indices := FindChanged(targets);
    if |indices| == 0 {
      return ids, true, events;
    }
    if |indices| == 1 {
      var id;
      id, ok, events := CaptureRequired(disk, targets[indices[0]]);
      ids := ids[indices[0] := id];
      return;
    }
    ids, ok, events := CaptureSeveral(disk, targets, indices);
  }

  /** Several backups in one batch, which can come back short or long. */
  method CaptureSeveral(disk: Disk, targets: seq<Target>, indices: seq<nat>)
    returns (ids: seq<string>, ok: bool, ghost events: seq<Event>)
    requires disk.Valid() && indices == ChangedIndices(targets, |targets|)
    modifies disk
    ensures disk.Valid() && old(disk.trace) <= disk.trace
    ensures disk.log == old(disk.log) + events && Harmless(events) && |ids| == |targets|
    ensures ok ==> AllBackedUp(events, targets, ids)
    ensures Committed(events, ids)
    ensures disk.Calm() ==> disk.files == old(disk.files)
    ensures disk.Calm() && disk.StoreWorks() && AllAsApproved(old(disk.files), targets, 0) ==> ok
  {
    hide Disk.Valid, AllBackedUp, Committed, AllVerified, AllAsApproved;
    var paths := seq(|indices|, k requires 0 <= k < |indices| => targets[indices[k]].path);
    ghost var working := disk.Calm() && disk.StoreWorks() && AllAsApproved(disk.files, targets, 0);
    ghost var files := disk.files;
    var captures, failed := disk.CaptureBatch(paths, CONVERT_ENCODING);
    ghost var all := captures;
    events := CapturedAll(captures);
    if working {
      WhenCalm(files, targets, indices, paths, captures);
    }
    if |captures| > |indices| {
      failed := true;
      captures := captures[..|indices|];
    }
    BatchCut(targets, indices, captures, all);
    ids, ok := VerifyCaptures(targets, indices, captures);
    BackedUpAmong([], CapturedAll(captures), CapturedAll(all[|captures|..]), targets, ids);
    assert [] + CapturedAll(captures) + CapturedAll(all[|captures|..]) == events;
  }

  /** Every changed target has a matching backup. */
  ghost predicate AllVerified(targets: seq<Target>, indices: seq<nat>, captures: seq<Manifest>) {
    |captures| >= |indices| && VerifiedUpTo(targets, indices, captures, |indices|)
  }

  ghost predicate VerifiedUpTo(targets: seq<Target>, indices: seq<nat>, captures: seq<Manifest>, n: nat)
    requires n <= |indices| && n <= |captures|
  {
    forall k | 0 <= k < n :: indices[k] < |targets| && Matches(captures[k], targets[indices[k]])
  }

  lemma VerifiedStep(targets: seq<Target>, indices: seq<nat>, captures: seq<Manifest>, n: nat)
    requires n < |captures| <= |indices| && indices[n] < |targets| && VerifiedUpTo(targets, indices, captures, n)
    ensures VerifiedUpTo(targets, indices, captures, n + 1) <==> Matches(captures[n], targets[indices[n]])
    ensures AllVerified(targets, indices, captures) ==> VerifiedUpTo(targets, indices, captures, n + 1)
  {
    hide Matches;
  }

  lemma WhenCalm(files: map<string, string>, targets: seq<Target>, indices: seq<nat>, paths: seq<string>,
                 captures: seq<Manifest>)
    requires |paths| == |indices| && AllAsApproved(files, targets, 0)
    requires forall k | 0 <= k < |indices| :: indices[k] < |targets| && paths[k] == targets[indices[k]].path
    ensures forall k | 0 <= k < |paths| :: paths[k] in files
    ensures CapturesAll(files, paths, CONVERT_ENCODING, captures) ==> AllVerified(targets, indices, captures)
  {
    hide ValidPreviewID;
    forall k | 0 <= k < |indices| ensures AsApproved(files, targets[indices[k]]) {
    }
  }

  lemma BatchCut(targets: seq<Target>, indices: seq<nat>, captures: seq<Manifest>, all: seq<Manifest>)
    requires captures <= all && |captures| == Min(|all|, |indices|)
    ensures AllVerified(targets, indices, captures) <==> AllVerified(targets, indices, all)
    ensures CapturedAll(captures) + CapturedAll(all[|captures|..]) == CapturedAll(all)
  {
    hide Matches;
  }

  /** Check the captures one by one, up to the first that does not match. */
  method VerifyCaptures(targets: seq<Target>, indices: seq<nat>, captures: seq<Manifest>)
    returns (ids: seq<string>, ok: bool)
    requires indices == ChangedIndices(targets, |targets|) && |captures| <= |indices|
    ensures |ids| == |targets| && Committed(CapturedAll(captures), ids)
    ensures ok ==> AllBackedUp(CapturedAll(captures), targets, ids)
    ensures ok <==> AllVerified(targets, indices, captures)
  {
    ids := seq(|targets|, _ => []);
    var verified := 0;
    ghost var placed := 0;
    assert VerifiedUpTo(targets, indices, captures, 0);
    NothingPlaced(indices, captures, ids);
    hide Placed, AllBackedUp, Committed, Matches, CapturedAll, ChangedIndices, VerifiedUpTo;
    while verified < |captures|
      invariant verified <= |captures| && |ids| == |targets|
      invariant placed == verified && Placed(indices, captures, ids, placed)
      invariant VerifiedUpTo(targets, indices, captures, verified)
    {
      var at := indices[verified];
      PlacedStep(indices, captures, ids, placed);
      VerifiedStep(targets, indices, captures, verified);
      ids, placed := ids[at := captures[verified].id], placed + 1;
      var matches := ValidateCaptured(captures[verified], targets[at]);
      if !matches {
        break;
      }
      verified := verified + 1;
    }
    PlacedIsCommitted(indices, captures, ids, placed);
    if verified != |indices| {
      return ids, false;
    }
    BatchCovers(targets, indices, captures, ids);
    ok := true;
  }

  lemma NothingPlaced(indices: seq<nat>, manifests: seq<Manifest>, ids: seq<string>)
    requires forall i | 0 <= i < |ids| :: ids[i] == []
    ensures Placed(indices, manifests, ids, 0)
  {
  }

  // ----- applying

  /** Check every prepared result and look at every target. */
  method CheckAll(disk: Disk, targets: seq<Target>) returns (ok: bool, ghost events: seq<Event>)
    requires disk.Valid()
    modifies disk
    ensures disk.Valid() && old(disk.trace) <= disk.trace
    ensures disk.log == old(disk.log) + events && Harmless(events)
    ensures ok ==> Intact(targets)
    ensures disk.Calm() ==> disk.files == old(disk.files)
    ensures disk.Calm() && AllAsApproved(old(disk.files), targets, 0) && Intact(targets) ==> ok
  {
    events := [];
    hide Disk.Valid;
    for index := 0 to |targets|
      invariant disk.Valid() && old(disk.trace) <= disk.trace
      invariant disk.log == old(disk.log) + events && Harmless(events)
      invariant forall i | 0 <= i < index :: targets[i].data == targets[i].result
      invariant disk.Calm() ==> disk.files == old(disk.files)
    {
      if targets[index].data != targets[index].result {
        return false, events;
      }
      ghost var before := disk.log;
      ok := Revalidate(disk, targets[index]);
      events := events + disk.log[|before|..];
      if !ok {
        return;
      }
    }
    ok := true;
  }

  /** Look at every target again. */
  method RevalidateAll(disk: Disk, targets: seq<Target>) returns (ok: bool, ghost events: seq<Event>)
    requires disk.Valid()
    modifies disk
    ensures disk.Valid() && old(disk.trace) <= disk.trace
    ensures disk.log == old(disk.log) + events && Harmless(events)
    ensures disk.Calm() ==> disk.files == old(disk.files) && (AllAsApproved(old(disk.files), targets, 0) ==> ok)
  {
    events := [];
    hide Disk.Valid;
    for index := 0 to |targets|
      invariant disk.Valid() && old(disk.trace) <= disk.trace
      invariant disk.log == old(disk.log) + events && Harmless(events)
      invariant disk.Calm() ==> disk.files == old(disk.files)
    {
      ghost var before := disk.log;
      ok := Revalidate(disk, targets[index]);
      events := events + disk.log[|before|..];
      if !ok {
        return;
      }
    }
    ok := true;
  }

  /** Revalidate, replace and verify one changed target. */
  method ApplyOne(disk: Disk, target: Target) returns (ok: bool, ghost tail: seq<Event>)
    requires disk.Valid()
    requires target.data == target.result
    modifies disk
    ensures disk.Valid() && old(disk.trace) <= disk.trace
    ensures disk.log == old(disk.log) + tail
    ensures if ok then tail == Converted(target) else Attempted(target, tail)
    ensures disk.Calm() && AsApproved(old(disk.files), target) && target.bak != Some(target.path) ==>
              ok && disk.files == WithReplacement(old(disk.files), target.path, target.approved, target.result, target.bak)
  {
    tail := [];
    hide Disk.Valid;
    var live := disk.Turn();
    if !live {
      return false, tail;
    }
    ok := Revalidate(disk, target);
    tail := disk.log[|old(disk.log)|..];
    if !ok {
      return;
    }
    ghost var seen := tail;
    assert seen == [Observed(target.path, target.approved)];
    var wrote;
    ok, wrote := disk.ReplaceFile(target.path, target.data, target.approved, target.bak);
    tail := disk.log[|old(disk.log)|..];
    ghost var written := seen + ReplacementEvents(target.path, target.approved, target.result, target.bak);
    if !ok {
      if !wrote {
        ghost var events :| Abandoned(target.approved, target.bak, events) && disk.log == old(disk.log) + seen + events;
        assert tail == seen + events;
      } else {
        assert tail == written;
      }
      return;
    }
    assert tail == written;
    var post := disk.Read(target.path);
    tail := disk.log[|old(disk.log)|..];
    assert tail == written + if post.Some? then [Observed(target.path, post.value)] else [];
    ok := post == Some(target.result);
    if !ok && post.Some? {
      assert WrittenOnly(target, tail);
    }
  }

  /** The output after one more target was converted. */
  function Success(output: Output, index: nat): (next: Output)
    requires index < |output.items|
    ensures |next.items| == |output.items| && next.partialCommit == output.partialCommit && next.applied == output.applied
  {
    output.(items := output.items[index := output.items[index].(applied := true)], committed := output.committed + 1)
  }

  /** The output of a failure at one target. */
  function Failure(output: Output, index: nat): Output
    requires index < |output.items|
  {
    output.(partialCommit := output.committed > 0, applied := output.committed > 0,
            items := output.items[index := output.items[index].(failed := true)])
  }

  /** The counters after the first `n` targets. */
  ghost predicate Reports(targets: seq<Target>, n: nat, output: Output)
    requires n <= |targets|
  {
    && |output.items| == |targets| && output.committed == CountChanged(targets, n)
    && forall j | 0 <= j < |targets| :: output.items[j].applied <==> j < n && targets[j].changed
  }

  lemma OneMoreReported(targets: seq<Target>, n: nat, output: Output)
    requires n < |targets| && Reports(targets, n, output)
    ensures targets[n].changed ==> Reports(targets, n + 1, Success(output, n))
    ensures !targets[n].changed ==> Reports(targets, n + 1, output)
  {
  }

  /** One target in its turn: nothing to do, or convert it and report that. */
  method ApplyNext(disk: Disk, targets: seq<Target>, index: nat, start: Output)
    returns (output: Output, ok: bool, ghost tail: seq<Event>)
    requires disk.Valid() && index < |targets| && targets[index].data == targets[index].result
    requires Reports(targets, index, start) && !start.partialCommit
    modifies disk
    ensures disk.Valid() && old(disk.trace) <= disk.trace && disk.log == old(disk.log) + tail
    ensures BackupIDs(output) == BackupIDs(start)
    ensures ok ==> Reports(targets, index + 1, output) && !output.partialCommit
    ensures ok ==> tail == if targets[index].changed then Converted(targets[index]) else []
    ensures !ok ==> Reports(targets, index, output) && output.partialCommit == output.applied == (output.committed > 0)
    ensures !ok ==> targets[index].changed && Attempted(targets[index], tail) && output.items[index].failed
    ensures disk.Calm() && AsApproved(old(disk.files), targets[index]) && targets[index].bak != Some(targets[index].path) ==>
              ok && disk.files == var t := targets[index];
                                  if t.changed then WithReplacement(old(disk.files), t.path, t.approved, t.result, t.bak)
                                  else old(disk.files)
  {
    output, ok, tail := start, true, [];
    OneMoreReported(targets, index, start);
    SameBackups(start, index);
    FailureReported(targets, index, start);
    hide Reports, Attempted, Converted, AsApproved, WithReplacement, BackupIDs, Success, Failure, Disk.Valid, Disk.Calm;
    if targets[index].changed {
      ok, tail := ApplyOne(disk, targets[index]);
      output := if ok then Success(start, index) else Failure(start, index);
    }
  }

  /** One target after another, up to the first failure. */
  method ApplyAll(disk: Disk, targets: seq<Target>, start: Output)
    returns (output: Output, ok: bool, ghost done: nat, ghost tail: seq<Event>)
    requires disk.Valid()
    requires Intact(targets)
    requires Reports(targets, 0, start) && !start.partialCommit
    modifies disk
    ensures disk.Valid() && old(disk.trace) <= disk.trace
    ensures done <= |targets| && disk.log == old(disk.log) + AllConverted(targets, done) + tail
    ensures Reports(targets, done, output) && output.applied == (output.committed > 0)
    ensures BackupIDs(output) == BackupIDs(start)
    ensures output.partialCommit == (!ok && output.committed > 0)
    ensures if ok then done == |targets| && tail == []
            else done < |targets| && targets[done].changed && Attempted(targets[done], tail) && output.items[done].failed
    ensures disk.Calm() && Apart(targets) && AllAsApproved(old(disk.files), targets, 0) ==>
              ok && disk.files == AllReplaced(old(disk.files), targets, |targets|)
  {
    output, done, tail := start, 0, [];
    NothingConverted(targets);
    StartOnTrack(disk.files, targets);
    assert old(disk.log) + [] + [] == disk.log;
    hide Reports, Attempted, Converted, AllConverted, AllReplaced, OnTrack, AllAsApproved, AsApproved, WithReplacement, Apart,
         BackupIDs, Disk.Valid, Disk.Calm;
    ghost var calm := disk.Calm() && Apart(targets) && AllAsApproved(old(disk.files), targets, 0);
    for index := 0 to |targets|
      invariant calm ==> OnTrack(old(disk.files), disk.files, targets, index)
      invariant done == index && tail == [] && disk.log == old(disk.log) + AllConverted(targets, done)
      invariant Reports(targets, done, output) && !output.partialCommit
      invariant disk.Valid() && old(disk.trace) <= disk.trace && BackupIDs(output) == BackupIDs(start)
    {
      ConvertedStep(old(disk.log), targets, index);
      if calm {
        OthersStay(old(disk.files), disk.files, targets, index);
      }
      output, ok, tail := ApplyNext(disk, targets, index, output);
      if !ok {
        return;
      }
      done, tail := index + 1, [];
    }
    if calm {
      EndOnTrack(old(disk.files), disk.files, targets);
    }
    FinalReported(targets, output);
    output := output.(applied := output.committed > 0);
    ok := true;
  }

  lemma SameBackups(output: Output, n: nat)
    requires n < |output.items|
    ensures BackupIDs(Failure(output, n)) == BackupIDs(output)
    ensures BackupIDs(Success(output, n)) == BackupIDs(output)
  {
  }

  /** The first `n` targets are converted, the others as they were approved. */
  ghost predicate OnTrack(start: map<string, string>, files: map<string, string>, targets: seq<Target>, n: nat)
    requires n <= |targets|
  {
    files == AllReplaced(start, targets, n) && AllAsApproved(files, targets, n)
  }

  lemma StartOnTrack(files: map<string, string>, targets: seq<Target>)
    ensures AllAsApproved(files, targets, 0) ==> OnTrack(files, files, targets, 0)
  {
  }

  lemma EndOnTrack(start: map<string, string>, files: map<string, string>, targets: seq<Target>)
    requires OnTrack(start, files, targets, |targets|)
    ensures files == AllReplaced(start, targets, |targets|)
  {
  }

  /** Converting one target leaves the others as they were approved. */
  lemma OthersStay(start: map<string, string>, files: map<string, string>, targets: seq<Target>, index: nat)
    requires index < |targets| && Apart(targets) && OnTrack(start, files, targets, index)
    ensures AsApproved(files, targets[index]) && targets[index].bak != Some(targets[index].path)
    ensures var t := targets[index];
            OnTrack(start, if t.changed then WithReplacement(files, t.path, t.approved, t.result, t.bak) else files, targets, index + 1)
  {
    var t := targets[index];
    var now := WithReplacement(files, t.path, t.approved, t.result, t.bak);
    forall i | index + 1 <= i < |targets| ensures AsApproved(now, targets[i]) {
      assert AsApproved(files, targets[i]) && targets[i].path != t.path;
      assert t.bak.Some? ==> t.bak.value != targets[i].path;
    }
  }

  lemma ConvertedStep(log: seq<Event>, targets: seq<Target>, n: nat)
    requires n < |targets|
    ensures log + AllConverted(targets, n + 1)
         == log + AllConverted(targets, n) + if targets[n].changed then Converted(targets[n]) else []
    ensures log + AllConverted(targets, n + 1) + [] == log + AllConverted(targets, n + 1)
  {
    hide Converted;
  }

  lemma FailureReported(targets: seq<Target>, n: nat, output: Output)
    requires n < |targets| && Reports(targets, n, output)
    ensures Reports(targets, n, Failure(output, n)) && Failure(output, n).items[n].failed
    ensures var failure := Failure(output, n);
            failure.partialCommit == failure.applied == (failure.committed > 0)
  {
  }

  lemma FinalReported(targets: seq<Target>, output: Output)
    requires Reports(targets, |targets|, output)
    ensures Reports(targets, |targets|, output.(applied := output.committed > 0))
    ensures BackupIDs(output.(applied := output.committed > 0)) == BackupIDs(output)
  {
  }

  lemma NothingReported(targets: seq<Target>)
    ensures Reports(targets, 0, Fresh(|targets|))
  {
  }

  /** The backup identifiers in the output. */
  function WithBackups(output: Output, ids: seq<string>): Output
    requires |ids| == |output.items|
  {
    output.(items := seq(|ids|, k requires 0 <= k < |ids| =>
      if ids[k] == [] then output.items[k] else output.items[k].(backupID := ids[k])))
  }

  lemma LookedMore(log: seq<Event>, looked: seq<Event>, more: seq<Event>)
    ensures log + looked + more == log + (looked + more)
    ensures log + looked + [] + [] == log + looked
  {
  }

  lemma BackupsReported(targets: seq<Target>, ids: seq<string>)
    requires |ids| == |targets|
    ensures |Fresh(|targets|).items| == |ids| && Reports(targets, 0, WithBackups(Fresh(|targets|), ids))
    ensures BackupIDs(WithBackups(Fresh(|targets|), ids)) == ids
  {
  }

  lemma NothingIdentified(n: nat)
    ensures forall i | 0 <= i < n :: BackupIDs(Fresh(n))[i] == []
  {
  }

  lemma CommittedNothing(events: seq<Event>, ids: seq<string>)
    requires forall i | 0 <= i < |ids| :: ids[i] == []
    ensures Committed(events, ids)
  {
  }

  /** Everything before the first write: look, back up, look again. */
  method Approve(disk: Disk, targets: seq<Target>, backupRequired: bool)
    returns (output: Output, ok: bool, ghost looked: seq<Event>)
    requires disk.Valid()
    modifies disk
    ensures disk.Valid() && old(disk.trace) <= disk.trace
    ensures disk.log == old(disk.log) + looked && Harmless(looked)
    ensures Reports(targets, 0, output) && !output.applied && !output.partialCommit && output.committed == 0
    ensures ok ==> Intact(targets) && (backupRequired ==> AllBackedUp(looked, targets, BackupIDs(output)))
    ensures Committed(looked, BackupIDs(output))
    ensures disk.Calm() && AllAsApproved(old(disk.files), targets, 0) && Intact(targets)
            && (backupRequired ==> disk.StoreWorks()) ==>
              ok && disk.files == old(disk.files)
  {
    output := Fresh(|targets|);
    NothingReported(targets);
    NothingIdentified(|targets|);
    hide Reports, AllBackedUp, Harmless, AllAsApproved, Intact, BackupIDs, Disk.Valid, Disk.Calm, Disk.StoreWorks, Committed;
    ok, looked := CheckAll(disk, targets);
    CommittedNothing(looked, BackupIDs(output));
    if !ok || !backupRequired {
      return;
    }
    var ids;
    ghost var events, again;
    ids, ok, events := CaptureRequiredBackups(disk, targets);
    LookedMore(old(disk.log), looked, events);
    HarmlessMore(looked, events);
    BackupsReported(targets, ids);
    BackedUpAmong(looked, events, [], targets, ids);
    assert looked + events + [] == looked + events;
    output := WithBackups(output, ids);
    if !ok {
      looked := looked + events;
      return;
    }
    ghost var before := looked;
    looked := looked + events;
    ok, again := RevalidateAll(disk, targets);
    LookedMore(old(disk.log), looked, again);
    HarmlessMore(looked, again);
    BackedUpAmong(before, events, again, targets, ids);
    looked := looked + again;
  }

  /** Apply a claimed conversion. `looked` is what was seen and backed up before the first write, `done` the
      number of targets that are finished, `tail` what the target that failed left behind. When nothing
      interferes, all of it is done. */
  method HandleConvertEncodingApply(disk: Disk, targets: seq<Target>, backupRequired: bool)
    returns (output: Output, ok: bool, ghost looked: seq<Event>, ghost done: nat, ghost tail: seq<Event>)
    requires disk.Valid()
    modifies disk
    ensures disk.Valid() && old(disk.trace) <= disk.trace
    ensures done <= |targets| && disk.log == old(disk.log) + looked + AllConverted(targets, done) + tail && Harmless(looked)
    ensures Events(disk.trace[|old(disk.trace)|..]) == looked + AllConverted(targets, done) + tail
    ensures Reports(targets, done, output)
    ensures output.applied == (output.committed > 0) && output.partialCommit == (!ok && output.committed > 0)
    ensures ok ==> done == |targets| && tail == []
    ensures !ok ==> (done == 0 && tail == [])
                    || (done < |targets| && targets[done].changed && Attempted(targets[done], tail) && output.items[done].failed)
    ensures AllConverted(targets, done) + tail != [] ==>
              Intact(targets) && (backupRequired ==> AllBackedUp(looked, targets, BackupIDs(output)))
    ensures Committed(looked, BackupIDs(output))
    ensures disk.Calm() && Apart(targets) && AllAsApproved(old(disk.files), targets, 0) && Intact(targets)
            && (backupRequired ==> disk.StoreWorks()) ==>
              ok && disk.files == AllReplaced(old(disk.files), targets, |targets|)
  {
    done, tail := 0, [];
    NothingConverted(targets);
    disk.LogIsEvents();
    hide Attempted, AllBackedUp, Harmless, AllReplaced, Apart, AllAsApproved, Intact, BackupIDs, Committed, Disk.Valid, Disk.Calm, Disk.StoreWorks, AllConverted, Events,
         Reports, CountChanged;
    output, ok, looked := Approve(disk, targets, backupRequired);
    if !ok {
      LookedMore(old(disk.log), looked, []);
    } else {
      output, ok, done, tail := ApplyAll(disk, targets, output);
    }
    disk.LogIsEvents();
    ghost var events := AllConverted(targets, done);
    assert old(disk.log) + looked + events + tail == old(disk.log) + (looked + events + tail);
    EventsSince(old(disk.trace), disk.trace, looked + events + tail);
  }

  lemma NothingConverted(targets: seq<Target>)
    ensures AllConverted(targets, 0) == [] && CountChanged(targets, 0) == 0
  {
  }

  // ----- what the log of an application says

  /** A validated batch resolves to targets that are apart. */
  lemma BatchIsApart(paths: Paths, requested: seq<string>, backup: bool, targets: seq<Target>)
    requires paths.Distinct(requested, backup) && |targets| == |requested|
    requires forall i | 0 <= i < |targets| ::
               && paths.resolve(requested[i]) == Some(targets[i].path)
               && targets[i].bak == if backup then paths.BackupOf(requested[i]) else None
    ensures Apart(targets)
  {
    forall i, j | 0 <= i < j < |targets| ensures targets[i].path != targets[j].path {
      assert paths.Key(requested[i]) != paths.Key(requested[j]);
    }
    forall i, j | 0 <= i < |targets| && 0 <= j < |targets| && targets[i].bak.Some?
      ensures targets[i].bak.value != targets[j].path {
      assert paths.key(paths.BackupOf(requested[i]).value) != paths.Key(requested[j]);
    }
  }

  /** What one target may do: replace its approved content by its result, and keep that content beside it. */
  predicate OwnEvent(t: Target, event: Event) {
    match event
    case Observed(path, _) => path == t.path
    case SeenAbsent(_) => false
    case Captured(_) => false
    case BackupWritten(path, content) => t.bak == Some(path) && content == t.approved
    case BackupRolledBack(path, _) => t.bak == Some(path)
    case Wrote(path, before, after) => path == t.path && before == Some(t.approved) && after == t.result
  }

  lemma ConvertedIsOwn(t: Target, k: nat)
    requires k < |Converted(t)|
    ensures OwnEvent(t, Converted(t)[k])
  {
  }

  lemma AttemptedIsOwn(t: Target, tail: seq<Event>, k: nat)
    requires Attempted(t, tail) && k < |tail|
    ensures OwnEvent(t, tail[k])
  {
  }

  /** Every effect belongs to one target that was to be changed, and is over its approved content. */
  lemma {:induction false} EveryWriteIsApproved(targets: seq<Target>, done: nat, k: nat) returns (i: nat)
    requires done <= |targets| && k < |AllConverted(targets, done)|
    ensures i < done && targets[i].changed && OwnEvent(targets[i], AllConverted(targets, done)[k])
  {
    var earlier := AllConverted(targets, done - 1);
    if k < |earlier| {
      i := EveryWriteIsApproved(targets, done - 1, k);
    } else {
      i := done - 1;
      ConvertedIsOwn(targets[i], k - |earlier|);
    }
  }

  ghost predicate WrittenIn(events: seq<Event>, path: string) {
    exists k :: 0 <= k < |events| && events[k].Wrote? && events[k].path == path
  }

  lemma {:induction false} FinishedIsWritten(targets: seq<Target>, done: nat, j: nat)
    requires j < done <= |targets| && targets[j].changed
    ensures WrittenIn(AllConverted(targets, done), targets[j].path)
  {
    var earlier, last := AllConverted(targets, done - 1), Converted(targets[done - 1]);
    if j < done - 1 {
      FinishedIsWritten(targets, done - 1, j);
      var k :| 0 <= k < |earlier| && earlier[k].Wrote? && earlier[k].path == targets[j].path;
      assert AllConverted(targets, done)[k] == earlier[k];
    } else {
      var at := if targets[j].bak.Some? then 2 else 1;
      assert last[at] == Wrote(targets[j].path, Some(targets[j].approved), targets[j].result);
      assert AllConverted(targets, done)[|earlier| + at] == last[at];
    }
  }

  /** The written targets are the ones reported as applied, and at most the one that failed. */
  lemma WrittenIsReported(targets: seq<Target>, done: nat, tail: seq<Event>, output: Output, j: nat)
    requires done <= |targets| && Apart(targets) && Reports(targets, done, output) && j < |targets|
    requires tail == [] || (done < |targets| && targets[done].changed && Attempted(targets[done], tail))
    ensures output.items[j].applied ==> WrittenIn(AllConverted(targets, done) + tail, targets[j].path)
    ensures WrittenIn(AllConverted(targets, done) + tail, targets[j].path) ==> output.items[j].applied || (j == done && targets[j].changed)
  {
    var all := AllConverted(targets, done);
    if output.items[j].applied {
      FinishedIsWritten(targets, done, j);
      var k :| 0 <= k < |all| && all[k].Wrote? && all[k].path == targets[j].path;
      assert (all + tail)[k] == all[k];
    }
    if WrittenIn(all + tail, targets[j].path) {
      var k :| 0 <= k < |all + tail| && (all + tail)[k].Wrote? && (all + tail)[k].path == targets[j].path;
      if k < |all| {
        var i := EveryWriteIsApproved(targets, done, k);
        assert i == j;
      } else {
        AttemptedIsOwn(targets[done], tail, k - |all|);
        assert done == j;
      }
    }
  }

  /** No write and no adjacent backup touches another requested target. */
  lemma OthersUntouched(targets: seq<Target>, done: nat, tail: seq<Event>, k: nat, j: nat)
    requires done <= |targets| && Apart(targets) && j < |targets|
    requires tail == [] || (done < |targets| && targets[done].changed && Attempted(targets[done], tail))
    requires k < |AllConverted(targets, done) + tail|
    ensures var event := (AllConverted(targets, done) + tail)[k];
            && !event.Captured?
            && (event.BackupWritten? || event.BackupRolledBack? ==> event.path != targets[j].path)
            && (event.Wrote? && event.path == targets[j].path ==>
                  event.before == Some(targets[j].approved) && event.after == targets[j].result && targets[j].changed)
  {
    var all := AllConverted(targets, done);
    var i: nat;
    if k < |all| {
      i := EveryWriteIsApproved(targets, done, k);
    } else {
      i := done;
      AttemptedIsOwn(targets[done], tail, k - |all|);
    }
    hide Attempted, AllConverted;
    assert OwnEvent(targets[i], (all + tail)[k]);
    assert i != j ==> targets[i].path != targets[j].path;
  }

  predicate IsEffect(event: Event) {
    event.BackupWritten? || event.BackupRolledBack? || event.Wrote?
  }

  lemma NoEffectWhileLooking(looked: seq<Event>, more: seq<Event>, k: nat)
    requires Harmless(looked) && k < |looked + more| && IsEffect((looked + more)[k])
    ensures k >= |looked|
  {
  }

  /** An effect in the log of a run, and the target it belongs to. */
  lemma EffectIsOwn(targets: seq<Target>, looked: seq<Event>, done: nat, tail: seq<Event>, k: nat) returns (i: nat)
    requires done <= |targets| && Harmless(looked)
    requires tail == [] || (done < |targets| && targets[done].changed && Attempted(targets[done], tail))
    requires k < |looked + AllConverted(targets, done) + tail|
    requires IsEffect((looked + AllConverted(targets, done) + tail)[k])
    ensures i < |targets| && targets[i].changed && OwnEvent(targets[i], (looked + AllConverted(targets, done) + tail)[k])
  {
    var all := AllConverted(targets, done);
    NoEffectWhileLooking(looked, all + tail, k);
    assert looked + all + tail == looked + (all + tail);
    if k < |looked| + |all| {
      i := EveryWriteIsApproved(targets, done, k - |looked|);
    } else {
      i := done;
      AttemptedIsOwn(targets[done], tail, k - |looked| - |all|);
    }
  }

  /** What one step of a run may change in the files: the content of one target that was to be changed, from
      what was approved to its result, and its adjacent backup. */
  ghost predicate ChangesOnly(t: Target, before: map<string, string>, after: map<string, string>) {
    && (forall path | path != t.path && Some(path) != t.bak :: Lookup(after, path) == Lookup(before, path))
    && (Lookup(after, t.path) == Lookup(before, t.path)
        || (Lookup(before, t.path) == Some(t.approved) && Lookup(after, t.path) == Some(t.result)))
  }

  lemma OwnEffect(t: Target, start: map<string, string>, trace: seq<Step>, event: Event)
    requires OwnEvent(t, event) && Holds(start, trace, event) && t.bak != Some(t.path)
    ensures ChangesOnly(t, FilesAfter(start, trace), Effect(FilesAfter(start, trace), event))
  {
    hide FilesAfter;
  }

  /** Whatever the environment did in between: each step of a run that changes any file changes one target that
      was to be changed, at a moment it held its approved content, and touches no other target. */
  lemma ChangesAreApproved(start: map<string, string>, trace: seq<Step>, from: nat, targets: seq<Target>,
                           looked: seq<Event>, done: nat, tail: seq<Event>, k: nat)
    returns (i: nat)
    requires Honest(start, trace) && done <= |targets| && Harmless(looked) && Apart(targets)
    requires tail == [] || (done < |targets| && targets[done].changed && Attempted(targets[done], tail))
    requires from <= k < |trace| && trace[k].Did?
    requires Events(trace[from..]) == looked + AllConverted(targets, done) + tail
    requires FilesAfter(start, trace[..k + 1]) != FilesAfter(start, trace[..k])
    ensures i < |targets| && targets[i].changed
    ensures ChangesOnly(targets[i], FilesAfter(start, trace[..k]), FilesAfter(start, trace[..k + 1]))
    ensures forall j | 0 <= j < |targets| && j != i ::
              Lookup(FilesAfter(start, trace[..k + 1]), targets[j].path) == Lookup(FilesAfter(start, trace[..k]), targets[j].path)
  {
    StepInEvents(start, trace, from, k);
    hide Attempted, AllConverted, Harmless, Honest, FilesAfter, Events, Holds, OwnEvent;
    i := EffectIsOwn(targets, looked, done, tail, |Events(trace[from..k])|);
    assert targets[i].bak != Some(targets[i].path);
    OwnEffect(targets[i], start, trace[..k], trace[k].event);
    forall j | 0 <= j < |targets| && j != i
      ensures targets[j].path != targets[i].path && Some(targets[j].path) != targets[i].bak {
    }
  }
}
