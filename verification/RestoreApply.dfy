/** Applying a prepared restore, filetoolsserver/handler/backup_store_restore.go: authorize, revalidate,
    capture a safety backup, stage, revalidate again, commit, verify, and classify what is there after a failure,
    while the environment changes the file at any point.
 */
module RestoreApply {
  import opened Basics
  import opened Wrappers
  import opened SharedDisk
  import opened EncodingApply

  const RESTORE := "restore"

  /** `approved` is the content the preview showed, or none where there was no file; `result` is the backup's content. */
  datatype Prepared = Prepared(path: string, approved: Option<string>, result: string)

  datatype State = Ready | Restored | Unchanged | Missing | Unknown

  datatype Report = Report(state: State, actual: Option<string>, applied: bool, safetyBackupID: string, readOnlyCleared: bool)

  // ----- what a run may leave in the log

  /** A durable backup of exactly what is about to be overwritten was committed under this identifier. */
  ghost predicate SafelyCaptured(events: seq<Event>, prepared: Prepared, id: string) {
    && prepared.approved.Some? && ValidPreviewID(id)
    && Captured(Manifest(id, prepared.path, RESTORE, prepared.approved.value)) in events
  }

  /** Nothing, or one write of the data: over the approved content, which was captured before, or where there
      was no file at the preview and there still is none. */
  ghost predicate Writes(prepared: Prepared, data: string, id: string, looked: seq<Event>, writes: seq<Event>) {
    || writes == []
    || (writes == [Wrote(prepared.path, prepared.approved, data)]
        && (prepared.approved.Some? ==> SafelyCaptured(looked, prepared, id)))
  }

  /** What a look at the path leaves in the log. */
  function Seen(path: string, content: Option<string>): Event {
    match content
    case Some(c) => Observed(path, c)
    case None => SeenAbsent(path)
  }

  /** What was last seen of the file. */
  predicate LastSeen(log: seq<Event>, path: string, content: Option<string>) {
    |log| > 0 && log[|log| - 1] == Seen(path, content)
  }

  /** What a content of the file means for the restore. */
  function StateOf(prepared: Prepared, content: Option<string>): State {
    match content
    case None => if prepared.approved.None? then Missing else Unknown
    case Some(c) => if c == prepared.result then Restored else if content == prepared.approved then Unchanged else Unknown
  }

  /** The state says what was last seen, and every state but the unknown one was seen. */
  predicate Truthful(log: seq<Event>, prepared: Prepared, report: Report) {
    && (report.applied <==> report.state == Restored)
    && (report.actual.Some? ==> report.state == StateOf(prepared, report.actual))
    && (report.actual.None? ==> report.state in {Missing, Unknown})
    && (report.state in {Restored, Unchanged, Missing} ==>
          report.state == StateOf(prepared, report.actual) && LastSeen(log, prepared.path, report.actual))
    && (report.actual.Some? ==> LastSeen(log, prepared.path, report.actual))
    && (report.readOnlyCleared ==> report.applied)
  }

  /** The report is about these files. */
  predicate Describes(report: Report, prepared: Prepared, files: map<string, string>) {
    report.actual == Lookup(files, prepared.path) && report.state == StateOf(prepared, report.actual)
  }

  // ----- the steps

  /** The file is as the preview showed it: the same content, or still not there. */
  method Revalidate(disk: Disk, prepared: Prepared) returns (ok: bool, ghost events: seq<Event>)
    requires disk.Valid()
    modifies disk
    ensures disk.Valid() && old(disk.trace) <= disk.trace
    ensures disk.log == old(disk.log) + events && Harmless(events)
    ensures ok ==> LastSeen(events, prepared.path, prepared.approved)
    ensures disk.Quiet() ==> disk.files == old(disk.files)
    ensures disk.Calm() ==> (ok <==> Lookup(old(disk.files), prepared.path) == prepared.approved)
  {
    events := [];
    hide Disk.Valid;
    var authorized := disk.Turn();
    if !authorized {
      return false, events;
    }
    if prepared.approved.None? {
      var absent := disk.IsAbsent(prepared.path);
      events := if absent == Some(true) then [SeenAbsent(prepared.path)] else [];
      return absent == Some(true), events;
    }
    var content := disk.Read(prepared.path);
    events := if content.Some? then [Observed(prepared.path, content.value)] else [];
    ok := content == prepared.approved;
  }

  /** What is there after a failure. */
  method Classify(disk: Disk, prepared: Prepared)
    returns (state: State, actual: Option<string>, ghost events: seq<Event>)
    requires disk.Valid()
    modifies disk
    ensures disk.Valid() && old(disk.trace) <= disk.trace && old(disk.clock) <= disk.clock <= old(disk.clock) + 3
    ensures disk.log == old(disk.log) + events && Harmless(events)
    ensures actual.Some? ==> state == StateOf(prepared, actual)
    ensures actual.None? ==> state in {Missing, Unknown}
    ensures state == Missing || actual.Some? ==> state == StateOf(prepared, actual) && LastSeen(events, prepared.path, actual)
    ensures disk.Quiet() ==> disk.files == old(disk.files)
    ensures disk.Quiet() && disk.WorksAfter(old(disk.clock)) ==>
              actual == Lookup(disk.files, prepared.path) && state == StateOf(prepared, actual)
  {
    events := [];
    hide Disk.Valid;
    var resolved := disk.Turn();
    if !resolved {
      return Unknown, None, events;
    }
    var absent := disk.IsAbsent(prepared.path);
    if absent == Some(true) {
      return if prepared.approved.Some? then Unknown else Missing, None, [SeenAbsent(prepared.path)];
    }
    if absent.None? {
      return Unknown, None, events;
    }
    actual := disk.Read(prepared.path);
    events := if actual.Some? then [Observed(prepared.path, actual.value)] else [];
    if actual.None? {
      return Unknown, None, events;
    }
    state := if actual.value == prepared.result then Restored
             else if actual == prepared.approved then Unchanged
             else Unknown;
  }

  /** Put the read-only mode back if the file was not changed, then report what is there. When nothing
      interferes or fails from here on, the report is about the files as they are. */
  method Fail(disk: Disk, prepared: Prepared, report: Report, readOnlyCleared: bool)
    returns (failed: Report, ghost events: seq<Event>)
    requires disk.Valid()
    modifies disk
    ensures disk.Valid() && old(disk.trace) <= disk.trace && disk.clock <= old(disk.clock) + 5
    ensures disk.log == old(disk.log) + events && Harmless(events)
    ensures Truthful(disk.log, prepared, failed) && failed.state != Ready && failed.safetyBackupID == report.safetyBackupID
    ensures disk.Quiet() ==> disk.files == old(disk.files)
    ensures disk.Quiet() && disk.WorksAfter(old(disk.clock)) ==> Describes(failed, prepared, disk.files)
  {
    ghost var first := [];
    hide Disk.Valid;
    if readOnlyCleared && prepared.approved.Some? {
      var current := disk.Read(prepared.path);
      first := if current.Some? then [Observed(prepared.path, current.value)] else [];
      if current == prepared.approved {
        var _ := disk.Turn();
      }
    }
    var state, actual;
    ghost var last;
    state, actual, last := Classify(disk, prepared);
    events := first + last;
    failed := Report(state, actual, state == Restored, report.safetyBackupID, readOnlyCleared && state == Restored);
  }

  /** The safety backup of an existing target, checked against what was approved. */
  method CaptureSafety(disk: Disk, prepared: Prepared) returns (id: string, ok: bool, ghost events: seq<Event>)
    requires disk.Valid()
    modifies disk
    ensures disk.Valid() && old(disk.trace) <= disk.trace
    ensures disk.log == old(disk.log) + events && Harmless(events)
    ensures ok <==> SafelyCaptured(events, prepared, id)
    ensures ok ==> events == [Captured(Manifest(id, prepared.path, RESTORE, prepared.approved.value))] && ValidPreviewID(id)
    ensures forall m | events == [Captured(m)] ::
              ok <==> ValidPreviewID(m.id) && m.path == prepared.path && m.operation == RESTORE && Some(m.content) == prepared.approved
    ensures |events| <= 1 && (events == [] ==> !ok)
    ensures id != [] ==> IsCommitted(events, id)
    ensures disk.Quiet() ==> disk.files == old(disk.files)
    ensures disk.Calm() && disk.StoreWorks() && prepared.approved.Some?
            && Lookup(old(disk.files), prepared.path) == prepared.approved ==>
              ok
  {
    hide Disk.Valid;
    var manifest, _ := disk.Capture(prepared.path, RESTORE);
    events := if manifest.Some? then [Captured(manifest.value)] else [];
    if manifest.None? || manifest.value.id == [] {
      return [], false, events;
    }
    assert events[0] == Captured(manifest.value);
    if ValidPreviewID(manifest.value.id) {
      id := manifest.value.id;
    } else {
      id := [];
    }
    ok := ValidPreviewID(manifest.value.id) && manifest.value.path == prepared.path && manifest.value.operation == RESTORE
          && Some(manifest.value.content) == prepared.approved;
  }

  lemma Later(log: seq<Event>, looked: seq<Event>, more: seq<Event>)
    requires Harmless(looked) && Harmless(more)
    ensures Harmless(looked + more) && log + looked + more == log + (looked + more)
  {
  }

  lemma CapturedLater(looked: seq<Event>, events: seq<Event>, more: seq<Event>, prepared: Prepared, id: string)
    ensures SafelyCaptured(events, prepared, id) ==> SafelyCaptured(looked + events + more, prepared, id)
    ensures IsCommitted(events, id) ==> IsCommitted(looked + events + more, id)
  {
    var all := looked + events + more;
    assert forall k | 0 <= k < |events| :: all[|looked| + k] == events[k];
    if IsCommitted(events, id) {
      var k :| 0 <= k < |events| && events[k].Captured? && events[k].manifest.id == id;
      assert all[|looked| + k].Captured? && all[|looked| + k].manifest.id == id;
    }
  }

  /** The safety backup and the checks around it. */
  method Secure(disk: Disk, prepared: Prepared) returns (id: string, ok: bool, ghost looked: seq<Event>)
    requires disk.Valid() && prepared.approved.Some?
    modifies disk
    ensures disk.Valid() && old(disk.trace) <= disk.trace
    ensures disk.log == old(disk.log) + looked && Harmless(looked)
    ensures ok ==> SafelyCaptured(looked, prepared, id)
    ensures id != [] ==> IsCommitted(looked, id)
    ensures disk.Quiet() ==> disk.files == old(disk.files)
    ensures disk.Calm() && disk.StoreWorks() && Lookup(old(disk.files), prepared.path) == prepared.approved ==> ok
  {
    hide Disk.Valid, SafelyCaptured, IsCommitted, LastSeen, Disk.StoreWorks;
    id, ok, looked := CaptureSafety(disk, prepared);
    if !ok {
      return;
    }
    var verified := disk.Turn();
    if !verified {
      return id, false, looked;
    }
    ghost var more;
    ok, more := Revalidate(disk, prepared);
    Later(old(disk.log), looked, more);
    CapturedLater([], looked, more, prepared, id);
    assert [] + looked + more == looked + more;
    looked := looked + more;
  }

  /** Everything before the commit: authorization, the source, the target, its safety backup, and the staged
      replacement. Success means the target was last seen as the preview showed it. */
  method Prepare(disk: Disk, prepared: Prepared) returns (id: string, ok: bool, ghost looked: seq<Event>)
    requires disk.Valid()
    modifies disk
    ensures disk.Valid() && old(disk.trace) <= disk.trace
    ensures disk.log == old(disk.log) + looked && Harmless(looked)
    ensures ok && prepared.approved.Some? ==> SafelyCaptured(looked, prepared, id)
    ensures ok ==> LastSeen(looked, prepared.path, prepared.approved)
    ensures id != [] ==> IsCommitted(looked, id)
    ensures disk.Quiet() ==> disk.files == old(disk.files)
    ensures disk.Calm() && disk.StoreWorks() && Lookup(old(disk.files), prepared.path) == prepared.approved ==> ok
  {
    hide Disk.Valid, SafelyCaptured, IsCommitted, Disk.StoreWorks;
    id, looked := [], [];
    var live := disk.Turn();
    if !live {
      return id, false, looked;
    }
    ok, looked := Revalidate(disk, prepared);
    if !ok {
      return;
    }
    ghost var events, more: seq<Event> := [], [];
    if prepared.approved.Some? {
      id, ok, events := Secure(disk, prepared);
    }
    Later(old(disk.log), looked, events);
    ghost var first := looked;
    looked := looked + events;
    CapturedLater(first, events, [], prepared, id);
    assert first + events + [] == looked;
    if !ok {
      return;
    }
    var staged := disk.Turn();
    if !staged {
      return id, false, looked;
    }
    ok, more := Revalidate(disk, prepared);
    Later(old(disk.log), looked, more);
    CapturedLater(first, events, more, prepared, id);
    LastSeenLater(looked, more, prepared.path, prepared.approved);
    looked := looked + more;
  }

  lemma LastSeenLater(looked: seq<Event>, more: seq<Event>, path: string, content: Option<string>)
    ensures LastSeen(more, path, content) ==> LastSeen(looked + more, path, content)
  {
  }

  /** Put the staged data in place, over the approved content or where there is no file. Whatever fails, without
      interference the file is either as it was or holds the data. */
  method Commit(disk: Disk, prepared: Prepared, data: string, id: string, ghost looked: seq<Event>)
    returns (ok: bool, ghost writes: seq<Event>)
    requires disk.Valid()
    requires prepared.approved.Some? ==> SafelyCaptured(looked, prepared, id)
    modifies disk
    ensures disk.Valid() && old(disk.trace) <= disk.trace
    ensures disk.log == old(disk.log) + writes && Writes(prepared, data, id, looked, writes)
    ensures ok ==> writes != []
    ensures disk.Quiet() ==> disk.files == if writes == [] then old(disk.files) else old(disk.files)[prepared.path := data]
    ensures disk.Calm() && Lookup(old(disk.files), prepared.path) == prepared.approved ==> ok
  {
    hide Disk.Valid;
    var wrote;
    if prepared.approved.Some? {
      ok, wrote := disk.ReplaceFile(prepared.path, data, prepared.approved.value, None);
      writes := disk.log[|old(disk.log)|..];
      if wrote {
        assert writes == [Wrote(prepared.path, prepared.approved, data)];
      } else {
        ghost var events :| Abandoned(prepared.approved.value, None, events) && disk.log == old(disk.log) + events;
        assert writes == [];
      }
    } else {
      ok, wrote := disk.InstallNew(prepared.path, data);
      writes := disk.log[|old(disk.log)|..];
      assert writes == if wrote then [Wrote(prepared.path, None, data)] else [];
    }
  }

  /** Clear the read-only mode and let go of the old file before it is replaced. */
  method Unlock(disk: Disk, readOnly: bool) returns (ok: bool, readOnlyCleared: bool)
    requires disk.Valid()
    modifies disk
    ensures disk.Valid() && old(disk.trace) <= disk.trace && disk.log == old(disk.log)
    ensures disk.Quiet() ==> disk.files == old(disk.files)
    ensures disk.Calm() ==> ok
  {
    hide Disk.Valid;
    readOnlyCleared := false;
    if readOnly {
      var cleared := disk.Turn();
      if !cleared {
        return false, false;
      }
      var refreshed := disk.Turn();
      if !refreshed {
        return false, false;
      }
      readOnlyCleared := true;
    }
    ok := disk.Turn();
  }

  /** Apply a claimed restore. `data` is what was staged from the backup, `readOnly` whether the target is
      read-only when it is about to be overwritten. `settled` is the moment, at most five steps before the end,
      from which only the report was made: with no interference, and no failure from then on, the report is
      about the files as they are, although the commit may have written and then failed. */
  method HandleRestoreApply(disk: Disk, prepared: Prepared, data: string, readOnly: bool)
    returns (report: Report, ok: bool, ghost looked: seq<Event>, ghost writes: seq<Event>, ghost afterwards: seq<Event>,
             ghost settled: nat)
    requires disk.Valid()
    modifies disk
    ensures disk.Valid() && old(disk.trace) <= disk.trace && disk.clock <= settled + 5
    ensures disk.log == old(disk.log) + looked + writes + afterwards && Harmless(looked) && Harmless(afterwards)
    ensures Events(disk.trace[|old(disk.trace)|..]) == looked + writes + afterwards
    ensures Writes(prepared, data, report.safetyBackupID, looked, writes)
    ensures report.safetyBackupID != [] ==> IsCommitted(looked, report.safetyBackupID)
    ensures Truthful(disk.log, prepared, report) && report.state != Ready
    ensures ok ==> report.state == Restored && writes != []
    ensures disk.Quiet() ==> disk.files == if writes == [] then old(disk.files) else old(disk.files)[prepared.path := data]
    ensures disk.Quiet() && disk.WorksAfter(settled) ==> Describes(report, prepared, disk.files)
    ensures disk.Calm() && disk.StoreWorks() && Lookup(old(disk.files), prepared.path) == prepared.approved
            && data == prepared.result ==>
              ok
  {
    disk.LogIsEvents();
    hide Disk.Valid, Events, Truthful, Writes, SafelyCaptured, IsCommitted, LastSeen, Describes, Disk.StoreWorks;
    report, writes, afterwards := Report(Ready, None, false, [], false), [], [];
    var id;
    id, ok, looked := Prepare(disk, prepared);
    report := report.(safetyBackupID := id);
    var readOnlyCleared := false;
    if ok && prepared.approved.Some? {
      ok, readOnlyCleared := Unlock(disk, readOnly);
    }
    NothingWritten(prepared, data, id, looked);
    if ok {
      ok, writes := Commit(disk, prepared, data, id, looked);
    }
    report, ok, afterwards, settled := Conclude(disk, prepared, report, readOnlyCleared, ok);
    disk.LogIsEvents();
    assert old(disk.log) + looked + writes + afterwards == old(disk.log) + (looked + writes + afterwards);
    EventsSince(old(disk.trace), disk.trace, looked + writes + afterwards);
  }

  lemma NothingWritten(prepared: Prepared, data: string, id: string, looked: seq<Event>)
    ensures Writes(prepared, data, id, looked, [])
  {
  }

  /** Verify what was committed, or classify what is there. */
  method Conclude(disk: Disk, prepared: Prepared, start: Report, readOnlyCleared: bool, committed: bool)
    returns (report: Report, ok: bool, ghost afterwards: seq<Event>, ghost settled: nat)
    requires disk.Valid()
    modifies disk
    ensures disk.Valid() && old(disk.trace) <= disk.trace && disk.clock <= settled + 5
    ensures disk.log == old(disk.log) + afterwards && Harmless(afterwards)
    ensures Truthful(disk.log, prepared, report) && report.state != Ready && report.safetyBackupID == start.safetyBackupID
    ensures ok ==> committed && report.state == Restored
    ensures disk.Quiet() ==> disk.files == old(disk.files)
    ensures disk.Quiet() && disk.WorksAfter(settled) ==> Describes(report, prepared, disk.files)
    ensures disk.Calm() && committed && Lookup(old(disk.files), prepared.path) == Some(prepared.result) ==> ok
  {
    hide Disk.Valid;
    settled, afterwards := disk.clock, [];
    if !committed {
      report, afterwards := Fail(disk, prepared, start, readOnlyCleared);
      return report, false, afterwards, settled;
    }
    var post := disk.Read(prepared.path);
    afterwards := if post.Some? then [Observed(prepared.path, post.value)] else [];
    if post != Some(prepared.result) {
      ghost var more;
      settled := disk.clock;
      report, more := Fail(disk, prepared, start, false);
      Later(old(disk.log), afterwards, more);
      afterwards := afterwards + more;
      return report, false, afterwards, settled;
    }
    report := start.(state := Restored, actual := post, applied := true, readOnlyCleared := readOnlyCleared);
    ok := true;
  }

  // ----- what the log of a restore says

  lemma EffectIsInWrites(writes: seq<Event>, afterwards: seq<Event>, k: nat)
    requires Harmless(afterwards) && k < |writes + afterwards| && IsEffect((writes + afterwards)[k])
    ensures k < |writes|
  {
  }

  lemma WhereWritten(prepared: Prepared, data: string, id: string, looked: seq<Event>, writes: seq<Event>,
                     afterwards: seq<Event>, k: nat)
    requires Harmless(looked) && Harmless(afterwards) && Writes(prepared, data, id, looked, writes)
    requires k < |looked + writes + afterwards| && IsEffect((looked + writes + afterwards)[k])
    ensures k == |looked| && writes == [Wrote(prepared.path, prepared.approved, data)]
    ensures (looked + writes + afterwards)[k] == writes[0] && (looked + writes + afterwards)[..k] == looked
  {
    NoEffectWhileLooking(looked, writes + afterwards, k);
    assert looked + writes + afterwards == looked + (writes + afterwards);
    EffectIsInWrites(writes, afterwards, k - |looked|);
  }

  /** Approved content is never lost. Whatever the environment did in between: a step of a run that changes any
      file changes the target alone, to the staged data, at a moment it holds exactly what the preview showed.
      That content is in a durable backup by then, under the identifier the report names; and a target that was
      absent at the preview is only ever written where there is no file. */
  lemma OverwrittenIsCaptured(start: map<string, string>, trace: seq<Step>, from: nat, prepared: Prepared, data: string,
                              id: string, looked: seq<Event>, writes: seq<Event>, afterwards: seq<Event>, k: nat)
    requires Honest(start, trace) && from <= k < |trace| && trace[k].Did?
    requires Events(trace[from..]) == looked + writes + afterwards
    requires Harmless(looked) && Harmless(afterwards) && Writes(prepared, data, id, looked, writes)
    requires FilesAfter(start, trace[..k + 1]) != FilesAfter(start, trace[..k])
    ensures Lookup(FilesAfter(start, trace[..k]), prepared.path) == prepared.approved
    ensures FilesAfter(start, trace[..k + 1]) == FilesAfter(start, trace[..k])[prepared.path := data]
    ensures prepared.approved.Some? ==>
              ValidPreviewID(id) && Captured(Manifest(id, prepared.path, RESTORE, prepared.approved.value)) in Events(trace[from..k])
  {
    StepInEvents(start, trace, from, k);
    hide FilesAfter, Events, Honest, Harmless, ValidPreviewID;
    WhereWritten(prepared, data, id, looked, writes, afterwards, |Events(trace[from..k])|);
  }

  /** A target that was absent at the preview is never replaced: if it appears, no step of the run changes it. */
  lemma AbsentIsNeverReplaced(start: map<string, string>, trace: seq<Step>, from: nat, prepared: Prepared, data: string,
                              id: string, looked: seq<Event>, writes: seq<Event>, afterwards: seq<Event>, k: nat)
    requires Honest(start, trace) && from <= k < |trace| && trace[k].Did? && prepared.approved.None?
    requires Events(trace[from..]) == looked + writes + afterwards
    requires Harmless(looked) && Harmless(afterwards) && Writes(prepared, data, id, looked, writes)
    requires prepared.path in FilesAfter(start, trace[..k])
    ensures FilesAfter(start, trace[..k + 1]) == FilesAfter(start, trace[..k])
  {
    hide FilesAfter, Events, Honest, Harmless, Writes;
    if FilesAfter(start, trace[..k + 1]) != FilesAfter(start, trace[..k]) {
      OverwrittenIsCaptured(start, trace, from, prepared, data, id, looked, writes, afterwards, k);
    }
  }

  /** A run writes at most once. */
  lemma WritesOnce(start: map<string, string>, trace: seq<Step>, from: nat, prepared: Prepared, data: string,
                   id: string, looked: seq<Event>, writes: seq<Event>, afterwards: seq<Event>, j: nat, k: nat)
    requires Honest(start, trace) && from <= j < k < |trace| && trace[j].Did? && trace[k].Did?
    requires Events(trace[from..]) == looked + writes + afterwards
    requires Harmless(looked) && Harmless(afterwards) && Writes(prepared, data, id, looked, writes)
    requires FilesAfter(start, trace[..j + 1]) != FilesAfter(start, trace[..j])
    ensures FilesAfter(start, trace[..k + 1]) == FilesAfter(start, trace[..k])
  {
    StepInEvents(start, trace, from, j);
    StepInEvents(start, trace, from, k);
    WhereWritten(prepared, data, id, looked, writes, afterwards, |Events(trace[from..j])|);
    if FilesAfter(start, trace[..k + 1]) != FilesAfter(start, trace[..k]) {
      WhereWritten(prepared, data, id, looked, writes, afterwards, |Events(trace[from..k])|);
      EarlierInEvents(trace, from, j, k);
    }
  }

  lemma EarlierInEvents(trace: seq<Step>, from: nat, j: nat, k: nat)
    requires from <= j < k < |trace| && trace[j].Did?
    ensures |Events(trace[from..j])| < |Events(trace[from..k])|
  {
    assert trace[from..k] == trace[from..j] + [trace[j]] + trace[j + 1..k];
    assert [trace[j]][..0] == [];
    assert |Events([trace[j]])| == 1;
    EventsOfConcat(trace[from..j] + [trace[j]], trace[j + 1..k]);
    EventsOfConcat(trace[from..j], [trace[j]]);
  }
}
